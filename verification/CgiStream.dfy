/** Streaming the output of a CGI process to a client: one handler reads the pipe and fills a
    send buffer, the other drains it, and each switches the other's events on and off. The
    events of the two may come in any order and every transfer may be short.

    A connection is followed from the moment the CGI handler is set up to the end of that
    response. `wire` is what the client has been sent of it. */
module CgiStreaming {
  import opened Base
  import opened Text
  import opened Headers
  import opened EventDispatching

  const IO_BUFFER_SIZE: nat := 8192
  const MAX_CGI_HEADER_SIZE: nat := 8192
  const HIGH_WATER: nat := 1024 * 1024

  /** What the kernel answers while one event is handled: the room in the socket at the first and
      the second send (negative for an error), the bytes in the pipe (negative for an error; zero,
      with the process still at work, is one too), and the capacity of the send buffer. */
  datatype Io = Io(space: int, ready: int, spaceAfter: int, capacity: nat)

  /** What a read of the pipe returns, of `left` bytes that are still to come: a count; zero at the
      end; or -1 for a failure. */
  function CountOf(size: nat, ready: int, left: nat): (n: int)
    ensures -1 <= n <= size && n <= left
  {
    if ready < 0 then -1
    else if left == 0 then 0
    else if ready == 0 then -1
    else Min(size, Min(ready, left))
  }

  /** How many of `n` bytes a send takes. */
  function Sendable(space: int, n: nat): nat {
    if space < 0 then 0 else Min(space, n)
  }

  /** The capacity of the send buffer, which is never less than it was made with. */
  function Capacity(io: Io): nat {
    if io.capacity < IO_BUFFER_SIZE then IO_BUFFER_SIZE else io.capacity
  }

  /** The socket has room, and the pipe can be read. */
  predicate Lively(io: Io) {
    io.space > 0 && io.ready > 0 && io.spaceAfter > 0
  }

  /** A source of body bytes. For a CGI pipe, `remaining` is the output of the process that has
      not been read yet, written or still to be written. */
  class ResponseBody {
    const fromPipe: bool
    var remaining: string
    var isDone: bool
    ghost var failed: bool

    ghost predicate Valid()
      reads this
    {
      fromPipe && isDone ==> remaining == "" || failed
    }

    constructor (fromPipe: bool, contents: string)
      ensures Valid() && this.fromPipe == fromPipe && remaining == contents && !isDone && !failed
    {
      this.fromPipe, remaining, isDone, failed := fromPipe, contents, false, false;
    }

    function IsDone(): bool
      reads this
    {
      if fromPipe then isDone else remaining == ""
    }

    function Taken(size: nat, ready: int): (n: int)
      reads this
      ensures -1 <= n <= size && n <= |remaining|
    {
      if !fromPipe then Min(size, |remaining|)
      else if isDone then 0
      else CountOf(size, ready, |remaining|)
    }

    /** Some of the remaining bytes; or zero at their end; or -1 for a failure. */
    method Read(size: nat, ready: int) returns (n: int, data: string)
      requires Valid() && size > 0
      modifies this
      ensures Valid() && n == old(Taken(size, ready))
      ensures data + remaining == old(remaining) && (if n > 0 then n == |data| else data == "")
      ensures failed == (old(failed) || n < 0)
      ensures isDone == (old(isDone) || (fromPipe && n <= 0))
      ensures n <= 0 ==> remaining == "" || failed
    {
      data := "";
      n := Taken(size, ready);
      if n > 0 {
        data := remaining[..n];
        remaining := remaining[n..];
      } else if fromPipe {
        isDone := true;
        if n < 0 {
          failed := true;
        }
      }
    }
  }

  /** Every byte of the response is on the wire, in the send buffer, in flight, or still to be
      read, in that order. */
  predicate Accounts(wire: string, unsent: string, pending: string, remaining: string, total: string) {
    wire + unsent + pending + remaining == total
  }

  lemma AccountStart(head: string, rest: string, remaining: string)
    ensures Accounts("", head, rest, remaining, head + rest + remaining)
  {
    assert "" + head == head;
  }

  lemma AccountRead(wire: string, unsent: string, data: string, remaining: string, total: string)
    requires Accounts(wire, unsent, "", data + remaining, total)
    ensures Accounts(wire, unsent, data, remaining, total)
  {
    assert wire + unsent + "" + (data + remaining) == wire + unsent + data + remaining;
  }

  lemma AccountPush(wire: string, unsent: string, data: string, remaining: string, total: string)
    requires Accounts(wire, unsent, data, remaining, total)
    ensures Accounts(wire, unsent + data, "", remaining, total)
  {
    assert wire + (unsent + data) + "" + remaining == wire + unsent + data + remaining;
  }

  lemma AccountSend(wire: string, out: string, unsent: string, pending: string, remaining: string, total: string)
    requires Accounts(wire, out + unsent, pending, remaining, total)
    ensures Accounts(wire + out, unsent, pending, remaining, total)
  {
    assert wire + (out + unsent) == wire + out + unsent;
  }

  lemma AccountEnd(wire: string, remaining: string, total: string)
    requires Accounts(wire, "", "", remaining, total)
    ensures wire + remaining == total
  {
    assert wire + "" + "" == wire;
  }

  lemma AccountPrefix(wire: string, unsent: string, remaining: string, total: string)
    requires Accounts(wire, unsent, "", remaining, total)
    ensures wire + unsent <= total
  {
  }

  /** How the response ended: the last byte went out, or the connection was lost. */
  datatype Phase = Running | Finished | Closed

  datatype SendStatus = SEND_DONE | SEND_AGAIN | SEND_ERROR

  datatype ReadState = READING_HEADERS | STREAMING_BODY

  /** The header block for some headers: a start line, the headers in some order, a blank line. */
  ghost predicate IsHeaderBlock(block: string, startLine: string, h: HeaderMap) {
    exists keys :: Enumerates(keys, h) && block == startLine + CRLF + Print(keys, h) + CRLF
  }

  /** What a client reads from a header block: the headers, after the first line. */
  ghost predicate Carries(block: string, startLine: string, h: HeaderMap) {
    startLine + CRLF <= block && ParseSection(block[|startLine| + 2..], map[], true) == Parsed(true, h)
  }

  /** The connection header says whether the connection will be kept, and every other header, except
      those of the names left out, is as it was given. */
  ghost predicate Answering(sent: HeaderMap, given: HeaderMap, kept: bool, leftOut: seq<string>) {
    && Get(sent, "Connection") == Some(if kept then "keep-alive" else "close")
    && forall name :: !SameIgnoringCase(name, "Connection") ==>
         Get(sent, name) == if IsAmong(name, leftOut) then None else Get(given, name)
  }

  predicate IsAmong(name: string, names: seq<string>) {
    exists i :: 0 <= i < |names| && SameIgnoringCase(name, names[i])
  }

  /** The headers a client gets for those the process wrote. */
  function ResponseHeaders(h: HeaderMap, keepAlive: bool): HeaderMap {
    WithConnection(h - {"status"}, keepAlive)
  }

  function WithConnection(h: HeaderMap, keepAlive: bool): HeaderMap {
    Add(h, "Connection", if keepAlive then "keep-alive" else "close")
  }

  predicate AnnouncesLength(h: HeaderMap) {
    Get(h, "Content-Length").Some? || Get(h, "Transfer-Encoding").Some?
  }

  /** Start lines by status text and the page for a bad gateway, which are looked up elsewhere. */
  datatype Pages = Pages(
    startLines: map<string, string>,
    okLine: string,
    badGatewayLine: string,
    errorPage: string,
    errorHeaders: HeaderMap)

  /** The start line for a `Status` header: an unknown or missing status leaves the default. */
  function StartLineFor(pages: Pages, status: Option<string>): string {
    if status.Some? && status.value in pages.startLines then pages.startLines[status.value] else pages.okLine
  }

  /** The error page under its start line, announcing that the connection ends. */
  ghost predicate IsErrorResponse(pages: Pages, head: string, total: string) {
    total == head + pages.errorPage
    && exists sent ::
         && IsHeaderBlock(head, pages.badGatewayLine, sent)
         && Answering(sent, pages.errorHeaders, false, [])
         && (PrintableHeaders(pages.errorHeaders) ==> Carries(head, pages.badGatewayLine, sent))
  }

  /** A header block for the headers a process wrote: the start line is that of the status among them,
      if it is a known one; the status is left out; and the connection header says whether the connection
      will be kept. */
  ghost predicate IsCgiHead(pages: Pages, head: string, given: HeaderMap, kept: bool) {
    exists line, sent ::
      && (match Get(given, "Status")
          case Some(status) => line == if status in pages.startLines then pages.startLines[status] else pages.okLine
          case None => line == pages.okLine)
      && IsHeaderBlock(head, line, sent)
      && Answering(sent, given, kept, ["Status"])
      && (PrintableHeaders(given) ==> Carries(head, line, sent))
  }

  /** The header block built from the output's headers, and all the output after their end. The
      connection will be kept if the request asked for it and the output says how long it is. */
  ghost predicate IsCgiResponse(
    pages: Pages, output: string, head: string, total: string, keepAlive: bool, kept: bool)
  {
    var h := ParseSection(output, map[], false).headers;
    && HeaderEnd(output).Some?
    && IsCgiHead(pages, head, h, kept) && PrintableHeaders(h)
    && (kept <==> keepAlive && (Get(h, "Content-Length").Some? || Get(h, "Transfer-Encoding").Some?))
    && total == head + output[HeaderEnd(output).value.End()..]
  }

  lemma ConnectionAnswers(h: HeaderMap, kept: bool)
    ensures Answering(WithConnection(h, kept), h, kept, [])
    ensures PrintableHeaders(h) ==> PrintableHeaders(WithConnection(h, kept))
  {
    hide ToLower;
    hide SameIgnoringCase;
    hide Printable;
    var value := if kept then "keep-alive" else "close";
    forall name ensures Get(WithConnection(h, kept), name)
      == if SameIgnoringCase("Connection", name) then Some(value) else Get(h, name)
    {
      GetAdded(h, "Connection", value, name);
    }
    SameBothWays("Connection");
    ConnectionPrintable(kept);
  }

  lemma SameBothWays(s: string)
    ensures SameIgnoringCase(s, s) && forall t :: SameIgnoringCase(s, t) <==> SameIgnoringCase(t, s)
  {
    forall t ensures SameIgnoringCase(s, t) <==> SameIgnoringCase(t, s) {
      ToLowerIsSame(s, t);
      ToLowerIsSame(t, s);
    }
  }

  lemma ConnectionPrintable(kept: bool)
    ensures Printable(ToLower("Connection"), if kept then "keep-alive" else "close")
  {
    var value := if kept then "keep-alive" else "close";
    LowerPrintable(Written("", "Connection", "", "", value, ""));
  }

  lemma ResponseAnswers(h: HeaderMap, kept: bool)
    ensures Answering(ResponseHeaders(h, kept), h, kept, ["Status"])
    ensures PrintableHeaders(h) ==> PrintableHeaders(ResponseHeaders(h, kept))
  {
    hide ToLower;
    hide SameIgnoringCase;
    hide Printable;
    var without := h - {"status"};
    ConnectionAnswers(without, kept);
    StatusLowered();
    forall name ensures Get(without, name) == if IsAmong(name, ["Status"]) then None else Get(h, name) {
      ToLowerIsSame(name, "Status");
      assert IsAmong(name, ["Status"]) <==> SameIgnoringCase(name, ["Status"][0]);
    }
  }

  lemma StatusLowered()
    ensures ToLower("Status") == "status"
  {
    forall i | 0 <= i < 6 ensures ToLower("Status")[i] == "status"[i] {
      ToLowerAt("Status", i);
    }
  }

  lemma BlockCarries(block: string, startLine: string, h: HeaderMap)
    requires IsHeaderBlock(block, startLine, h) && PrintableHeaders(h)
    ensures Carries(block, startLine, h)
  {
    hide ParseSection;
    hide Print;
    hide PrintableHeaders;
    var keys :| Enumerates(keys, h) && block == startLine + CRLF + Print(keys, h) + CRLF;
    assert block == startLine + CRLF + (Print(keys, h) + CRLF);
    PrintParseRoundTrip(keys, h, true);
  }

  lemma CgiHead(pages: Pages, head: string, given: HeaderMap, kept: bool)
    requires IsHeaderBlock(head, StartLineFor(pages, Get(given, "Status")), ResponseHeaders(given, kept))
    ensures IsCgiHead(pages, head, given, kept)
  {
    hide IsHeaderBlock;
    hide ResponseHeaders;
    hide Answering;
    hide PrintableHeaders;
    hide Carries;
    hide Get;
    var line, sent := StartLineFor(pages, Get(given, "Status")), ResponseHeaders(given, kept);
    ResponseAnswers(given, kept);
    if PrintableHeaders(given) {
      BlockCarries(head, line, sent);
    }
  }

  lemma CgiResponse(pages: Pages, output: string, head: string, total: string, keepAlive: bool, kept: bool)
    requires HeaderEnd(output).Some?
    requires var h := ParseSection(output, map[], false).headers;
      && IsCgiHead(pages, head, h, kept)
      && (kept <==> keepAlive && (Get(h, "Content-Length").Some? || Get(h, "Transfer-Encoding").Some?))
    requires total == head + output[HeaderEnd(output).value.End()..]
    ensures IsCgiResponse(pages, output, head, total, keepAlive, kept)
  {
    hide HeaderEnd;
    hide ParseSection;
    hide IsCgiHead;
    hide PrintableHeaders;
    hide Get;
    ParsedPrintable(output, false);
  }

  lemma ErrorHead(pages: Pages, head: string, total: string)
    requires IsHeaderBlock(head, pages.badGatewayLine, WithConnection(pages.errorHeaders, false))
    requires total == head + pages.errorPage
    ensures IsErrorResponse(pages, head, total)
  {
    hide IsHeaderBlock;
    hide WithConnection;
    hide Answering;
    hide PrintableHeaders;
    hide Carries;
    var sent := WithConnection(pages.errorHeaders, false);
    ConnectionAnswers(pages.errorHeaders, false);
    if PrintableHeaders(pages.errorHeaders) {
      BlockCarries(head, pages.badGatewayLine, sent);
    }
  }

  // ----------------------------------------------------- what the reads of the headers decide

  /** How many bytes some reads took, counting failures and ends as none. */
  function Total(counts: seq<int>): nat {
    if counts == [] then 0
    else
      var last := counts[|counts| - 1];
      Total(counts[..|counts| - 1]) + if last > 0 then last else 0
  }

  /** The first `n` bytes of the output hold the end of its headers. */
  ghost predicate Arrived(output: string, n: nat) {
    HeaderEnd(output).Some? && HeaderEnd(output).value.End() <= n
  }

  /** No read so far settles the response: each took bytes, together not too many, and the end of
      the headers has not come. */
  ghost predicate Undecided(output: string, counts: seq<int>) {
    (forall k :: 0 <= k < |counts| ==> counts[k] > 0) && Total(counts) <= MAX_CGI_HEADER_SIZE
    && !Arrived(output, Total(counts))
  }

  /** The last of these reads is the one that settles the response. */
  ghost predicate Decided(output: string, counts: seq<int>) {
    && counts != [] && Undecided(output, counts[..|counts| - 1]) && !Undecided(output, counts)
    && Total(counts) <= |output| && (counts[|counts| - 1] == 0 ==> Total(counts) == |output|)
  }

  /** It settles it as an error: reading ended or failed before the headers did, or too much was
      read to find their end, or they are malformed. */
  ghost predicate Fails(output: string, counts: seq<int>)
    requires counts != []
  {
    || counts[|counts| - 1] <= 0
    || Total(counts) > MAX_CGI_HEADER_SIZE
    || !ParseSection(output, map[], false).ok
  }

  /** Output with complete headers that parse. */
  ghost predicate Answers(output: string) {
    HeaderEnd(output).Some? && ParseSection(output, map[], false).ok
  }

  /** Output that answers, and is no longer than the limit on the headers, is never refused,
      however the pipe is read, unless a read fails. */
  lemma ShortOutputNeverFails(output: string, counts: seq<int>)
    requires Decided(output, counts) && -1 !in counts && forall k :: 0 <= k < |counts| ==> counts[k] >= -1
    requires Answers(output) && |output| <= 8192
    ensures !Fails(output, counts)
  {
    hide ParseSection;
    hide HeaderEnd;
    assert counts[|counts| - 1] in counts;
    assert HeaderEnd(output).value.End() <= |output|;
  }

  /** The counterpart: longer output that answers can be refused, only because of how the pipe
      happened to be read. */
  lemma CutsDecideExactlyLongOutput(output: string)
    requires Answers(output)
    ensures (exists counts: seq<int> ::
              && (forall k :: 0 <= k < |counts| ==> 0 < counts[k] <= IO_BUFFER_SIZE)
              && Decided(output, counts) && Fails(output, counts))
            <==> |output| > 8192
  {
    hide ParseSection;
    hide HeaderEnd;
    if |output| > MAX_CGI_HEADER_SIZE {
      var counts: seq<int> := [1, MAX_CGI_HEADER_SIZE];
      assert counts[..1] == [1] && [1][..0] == [];
      assert Total([1]) == 1 && Total(counts) == 1 + MAX_CGI_HEADER_SIZE;
      DelimiterShape(output, HeaderEnd(output).value);
      assert Decided(output, counts) && Fails(output, counts);
    } else {
      forall counts: seq<int> |
        (forall k :: 0 <= k < |counts| ==> 0 < counts[k] <= IO_BUFFER_SIZE) && Decided(output, counts)
        ensures !Fails(output, counts)
      {
        ShortOutputNeverFails(output, counts);
      }
    }
  }

  /** What the response is, once settled: the output as it stands; or, when the reads of the
      headers settled it as an error, the error page; or else what is built from the output. And whether
      the connection will be kept after it. */
  ghost predicate SettledAs(
    pages: Pages, raw: bool, keepAlive: bool, output: string, counts: seq<int>, head: string, total: string, kept: bool)
  {
    if raw then head == "" && total == output && kept == keepAlive
    else
      Decided(output, counts)
      && if Fails(output, counts) then IsErrorResponse(pages, head, total) && !kept
         else IsCgiResponse(pages, output, head, total, keepAlive, kept)
  }

  /** A response that says, in the headers a client reads from it, whether the connection will be kept. */
  ghost predicate Says(pages: Pages, head: string, kept: bool) {
    exists line, sent :: IsHeaderBlock(head, line, sent)
      && Get(sent, "Connection") == Some(if kept then "keep-alive" else "close")
      && (PrintableHeaders(pages.errorHeaders) ==> Carries(head, line, sent))
  }

  /** Every response that is not passed on as it stands says what will become of the connection. */
  lemma SettledSays(
    pages: Pages, keepAlive: bool, output: string, counts: seq<int>, head: string, total: string, kept: bool)
    requires SettledAs(pages, false, keepAlive, output, counts, head, total, kept)
    ensures Says(pages, head, kept)
  {
    hide HeaderEnd;
    hide ParseSection;
    hide PrintableHeaders;
    hide Carries;
    hide IsHeaderBlock;
    hide Get;
    hide Decided;
    hide Fails;
  }

  class ClientHandler {
    var buffer: string
    var sent: nat
    var headersSent: bool
    var isKeepAlive: bool
    var isDraining: bool
    var mask: Mask
    var body: ResponseBody?
    var cgi: CGIHandler?
    var cgiIsDone: bool
    const pages: Pages

    var phase: Phase
    /** What the process writes, all of it, before anything was read. */
    ghost const output: string
    /** Whether the output is passed on as it stands, headers included. */
    ghost const raw: bool
    /** Whether the request asked for the connection to be kept. */
    ghost const keepAlive: bool
    ghost var wire: string
    /** What the reads of the headers returned, in order. */
    ghost var counts: seq<int>
    /** Once it is settled what the response will be: its header block, and all its bytes. */
    ghost var committed: bool
    ghost var head: string
    ghost var total: string
    /** At the end of the response: the bytes never read, and whether reading failed. */
    ghost var lost: string
    ghost var faulty: bool
    /** A hangup was handled with nothing unsent and bytes in the pipe. */
    ghost var cutOff: bool
    /** A hangup was handled before the response was settled. */
    ghost var unanswered: bool

    function IsSendBufferFull(): bool
      reads this
    {
      |buffer| > HIGH_WATER
    }

    function IsFullySent(): bool
      reads this
    {
      buffer == "" || sent >= |buffer|
    }

    /** Bytes in the send buffer that have not gone out. */
    ghost function Unsent(): string
      reads this
    {
      if sent <= |buffer| then buffer[sent..] else ""
    }

    /** The attached CGI handler: it feeds this client from its pipe, and it is never left
        without an event to wait for. */
    ghost predicate Attached()
      requires body != null && cgi != null
      reads this, cgi, body
    {
      && cgi.client == this && cgi.body == body && body.fromPipe && !cgiIsDone
      && (buffer == "" ==> cgi.mask.read)
    }

    /** What holds once the response is settled, with `pending` bytes in flight between the
        pipe and the send buffer. */
    ghost predicate Delivering(pending: string)
      reads this, cgi, body
    {
      && phase.Running? && committed && body != null && body.Valid()
      && (sent < |buffer| || (buffer == "" && sent == 0))
      && Accounts(wire, Unsent(), pending, body.remaining, total)
      && !mask.read && (buffer != "" || cgi == null ==> mask.write)
      && (cgi != null ==> Attached())
    }

    /** What holds while the process's headers are being read. */
    ghost predicate AwaitingHeaders(pending: string)
      reads this, cgi, body
    {
      && phase.Running? && !committed && body != null && body.Valid() && cgi != null && Attached()
      && !headersSent && mask == NOTHING && wire == "" && buffer == "" && sent == 0
      && cgi.state.READING_HEADERS? && cgi.headerBuffer + pending + body.remaining == output
      && |cgi.headerBuffer| == Total(counts) && isKeepAlive == keepAlive
    }

    /** Which response it is, and why: see `SettledAs`. While nothing is settled, no read of the
        headers has settled it. */
    ghost predicate Settled()
      reads this
    {
      if committed then SettledAs(pages, raw, keepAlive, output, counts, head, total, isKeepAlive)
      else !raw && Undecided(output, counts)
    }

    ghost function Bound(): nat
      reads this
    {
      (if |head| > HIGH_WATER then |head| else HIGH_WATER) + IO_BUFFER_SIZE
    }

    /** No read has failed. */
    ghost predicate Sound()
      reads this, body
    {
      match phase
      case Running => body != null && !body.failed
      case Finished => !faulty
      case Closed => true
    }

    /** What is left to do: every unread byte is to be read and sent, every unsent one sent, and an
        attached handler to be detached. */
    ghost function Potential(): nat
      reads this, body
    {
      (if body == null then 0 else if committed then 2 * |body.remaining| + |Unsent()| else |body.remaining|)
      + if cgi != null then 1 else 0
    }

    /** At the end: a settled response went out, but for the bytes never read, and an unsettled
        one sent nothing. Bytes are lost without a failed read exactly when a hangup was handled
        with nothing unsent and bytes in the pipe. */
    ghost predicate Ended()
      reads this
    {
      && (committed <==> !unanswered) && (isDraining <==> !isKeepAlive)
      && (if committed then wire + lost == total else wire == "")
      && (lost != "" && !faulty <==> cutOff)
    }

    ghost predicate Valid()
      reads this, cgi, body
    {
      match phase
      case Running =>
        && (if committed then Delivering("") else AwaitingHeaders(""))
        && (cgi != null && committed ==> cgi.state.STREAMING_BODY? && |buffer| <= Bound())
        && (cgi != null ==> !body.isDone && !body.failed)
        && !cutOff && !unanswered && (headersSent || raw <==> committed)
      case Finished => Ended()
      case Closed => !cutOff && !unanswered && if committed then wire <= total else wire == ""
    }

    /** Sets up the connection for a CGI response: the send buffer is empty, the client stops
        reading and the new handler waits for output. Without header parsing the output is the
        response as it stands. */
    constructor (body: ResponseBody, hasHeaderParsing: bool, keepAlive: bool, pages: Pages)
      requires body.Valid() && body.fromPipe && !body.isDone && !body.failed
      ensures Valid() && Settled() && phase.Running? && fresh(cgi) && this.body == body
      ensures output == body.remaining && raw == !hasHeaderParsing && wire == "" && counts == []
      ensures this.keepAlive == keepAlive && this.pages == pages && buffer == "" && committed == raw
      ensures raw ==> total == output && cgi.state.STREAMING_BODY?
    {
      buffer, sent, headersSent, isKeepAlive, isDraining := "", 0, false, keepAlive, false;
      mask, this.body, cgiIsDone := NOTHING, body, false;
      this.pages, this.keepAlive := pages, keepAlive;
      phase, output, raw := Running, body.remaining, !hasHeaderParsing;
      wire, counts, committed := "", [], !hasHeaderParsing;
      head, total, lost, faulty, cutOff, unanswered := "", body.remaining, "", false, false, false;
      new;
      cgi := new CGIHandler(body, this, hasHeaderParsing);
      AccountStart("", "", body.remaining);
      assert "" + "" + body.remaining == body.remaining;
      NothingArrived(output);
    }

    // ------------------------------------------------------------------------- the send buffer

    /** One attempt to send: as many of the unsent bytes go out as the socket has room for. */
    method Send(space: int) returns (status: SendStatus, ghost out: string)
      requires sent < |buffer| || (buffer == "" && sent == 0)
      modifies `buffer, `sent, `wire
      ensures sent < |buffer| || (buffer == "" && sent == 0)
      ensures wire == old(wire) + out && old(Unsent()) == out + Unsent()
      ensures |out| == Sendable(space, old(|Unsent()|))
      ensures buffer == "" || buffer == old(buffer)
      ensures buffer == "" <==> Unsent() == ""
      ensures status == (if buffer == "" then SEND_DONE else SEND_AGAIN)
    {
      out := "";
      assert wire + "" == wire && "" + Unsent() == Unsent();
      if IsFullySent() {
        return SEND_DONE, out;
      }
      if space < 0 {
        return SEND_AGAIN, out;
      }
      var bytesSent := Min(space, |buffer| - sent);
      out := buffer[sent..sent + bytesSent];
      assert Unsent() == out + buffer[sent + bytesSent..];
      wire := wire + out;
      sent := sent + bytesSent;
      if sent == |buffer| {
        buffer := "";
        sent := 0;
        return SEND_DONE, out;
      }
      return SEND_AGAIN, out;
    }

    /** Bytes from the pipe join the send buffer; an overfull buffer stops the reading. */
    method PushToSendBuffer(data: string)
      requires Delivering(data) && cgi != null && data != "" && |data| <= IO_BUFFER_SIZE
      requires |buffer| + IO_BUFFER_SIZE <= Bound()
      modifies `buffer, `mask, cgi`mask
      ensures Delivering("") && cgi == old(cgi) && |buffer| <= Bound()
      ensures buffer == old(buffer) + data && mask == old(mask).(write := true)
      ensures cgi.mask == if |buffer| > 1024 * 1024 then old(cgi.mask).(read := false) else old(cgi.mask)
    {
      hide SettledAs;
      hide Undecided;
      hide Accounts;
      hide HeaderEnd;
      hide IsHeaderBlock;
      hide ResponseHeaders;
      hide AnnouncesLength;
      hide Get;
      hide StartLineFor;
      AccountPush(wire, Unsent(), data, body.remaining, total);
      var wasEmpty := buffer == "";
      assert (buffer + data)[sent..] == Unsent() + data;
      buffer := buffer + data;
      if wasEmpty {
        mask := mask.(write := true);
      }
      if IsSendBufferFull() {
        cgi.mask := cgi.mask.(read := false);
      }
    }

    /** `Response::buildHeaders`. */
    method BuildHeaders(startLine: string, h: HeaderMap) returns (block: string)
      ensures block != "" && IsHeaderBlock(block, startLine, h)
    {
      hide Print;
      var lines := ToString(h);
      ghost var keys :| Enumerates(keys, h) && lines == Print(keys, h);
      block := startLine + CRLF + lines + CRLF;
    }

    /** A header block goes into the empty send buffer and writing is on: the response is that
        block, `rest`, and what the body has left. */
    method Commit(block: string, ghost rest: string)
      requires phase.Running? && body != null && body.Valid() && (cgi != null ==> Attached())
      requires wire == "" && sent == 0 && !mask.read && block != ""
      modifies `buffer, `headersSent, `mask, `committed, `head, `total
      ensures Delivering(rest) && headersSent && buffer == head == block
      ensures total == head + rest + body.remaining
    {
      hide Accounts;
      buffer := block;
      headersSent := true;
      mask := mask.(write := true);
      committed, head, total := true, block, block + rest + body.remaining;
      AccountStart(block, rest, body.remaining);
      assert buffer[0..] == buffer;
    }

    // -------------------------------------------------------------------------- the CGI side

    /** The process's headers are complete: the header block is built, and the response will be
        that block and all the output after the delimiter. */
    method OnCgiHeadersParsed(headers: HeaderMap, ghost rest: string)
      requires phase.Running? && !committed && body != null && body.Valid() && cgi != null && Attached()
      requires wire == "" && buffer == "" && sent == 0 && !mask.read
      modifies `buffer, `headersSent, `isKeepAlive, `mask, `committed, `head, `total
      ensures Delivering(rest) && cgi == old(cgi) && buffer == head != "" && headersSent
      ensures isKeepAlive <==>
        old(isKeepAlive) && (Get(headers, "Content-Length").Some? || Get(headers, "Transfer-Encoding").Some?)
      ensures IsCgiHead(pages, head, headers, isKeepAlive)
      ensures total == head + rest + body.remaining
    {
      hide AwaitingHeaders;
      hide Bound;
      hide SettledAs;
      hide Undecided;
      hide Accounts;
      hide HeaderEnd;
      hide IsHeaderBlock;
      hide ResponseHeaders;
      hide IsCgiHead;
      hide Get;
      hide StartLineFor;
      var status := Get(headers, "Status");
      if !AnnouncesLength(headers) {
        isKeepAlive := false;
      }
      var block := BuildHeaders(StartLineFor(pages, status), ResponseHeaders(headers, isKeepAlive));
      CgiHead(pages, block, headers, isKeepAlive);
      Commit(block, rest);
    }

    method RemoveCgi()
      modifies `cgi, `cgiIsDone
      ensures cgi == null && (old(cgi) != null ==> !cgiIsDone)
      ensures old(cgi) == null ==> cgiIsDone == old(cgiIsDone)
    {
      if cgi == null {
        return;
      }
      cgi, cgiIsDone := null, false;
    }

    /** The CGI handler has nothing more to do. If bytes are unsent, they and what is still in
        the pipe are left to the static write path; if none are, the response is over, whatever
        the pipe still holds. */
    method OnCgiComplete()
      requires phase.Running? && (if committed then Delivering("") else AwaitingHeaders(""))
      modifies `cgiIsDone, `cgi, `phase, `lost, `faulty, `buffer, `sent, `body, `headersSent, `isDraining, `mask
      ensures cgi == null
      ensures old(buffer) == "" ==>
        && phase.Finished? && (body == null || body == old(body))
        && lost == old(body.remaining) && faulty == old(body.failed)
        && (committed ==> wire + lost == total) && (isDraining <==> !isKeepAlive)
      ensures old(buffer) != "" ==>
        && Delivering("") && body == old(body) && headersSent == old(headersSent)
        && Potential() == old(Potential() - if cgi != null then 1 else 0)
    {
      hide SettledAs;
      hide Undecided;
      hide Accounts;
      hide HeaderEnd;
      hide IsHeaderBlock;
      hide ResponseHeaders;
      hide AnnouncesLength;
      hide Get;
      hide StartLineFor;
      cgiIsDone := true;
      if cgi != null {
        RemoveCgi();
      }
      if IsFullySent() {
        if committed {
          AccountEnd(wire, body.remaining, total);
        }
        FinalizeConnection();
      } else {
        mask := mask.(write := true);
      }
    }

    /** Gives up on the process before anything was sent: the response becomes an error page.
        Once a response is under way nothing is done. */
    method HandleError()
      requires phase.Running? && (!headersSent ==> !committed && !raw && wire == "" && !mask.read)
      modifies `cgi, `cgiIsDone, `isKeepAlive, `buffer, `sent, `body, `headersSent, `mask, `committed, `head, `total
      ensures old(headersSent) ==> unchanged(this)
      ensures !old(headersSent) ==>
        && Delivering("") && headersSent && cgi == null && fresh(body) && !body.failed
        && !isKeepAlive && wire == "" && IsErrorResponse(pages, head, total)
    {
      hide Delivering;
      hide Accounts;
      hide IsErrorResponse;
      if headersSent {
        return;
      }
      ClearResponse();
      BuildErrorResponse();
    }

    method ClearResponse()
      modifies `cgi, `cgiIsDone, `isKeepAlive, `buffer, `sent, `body
      ensures cgi == null && !isKeepAlive && buffer == "" && sent == 0
      ensures fresh(body) && body.Valid() && body.remaining == pages.errorPage && !body.failed
    {
      if cgi != null {
        RemoveCgi();
      }
      isKeepAlive := false;
      buffer, sent := "", 0;
      body := new ResponseBody(false, pages.errorPage);
    }

    method BuildErrorResponse()
      requires phase.Running? && !raw && wire == "" && cgi == null && buffer == "" && sent == 0 && !mask.read
      requires body != null && body.Valid() && body.remaining == pages.errorPage
      modifies `buffer, `headersSent, `mask, `committed, `head, `total
      ensures Delivering("") && headersSent && IsErrorResponse(pages, head, total)
    {
      hide Accounts;
      hide IsHeaderBlock;
      hide WithConnection;
      hide IsErrorResponse;
      var block := BuildHeaders(pages.badGatewayLine, WithConnection(pages.errorHeaders, false));
      Commit(block, "");
      assert block + "" + body.remaining == block + pages.errorPage;
      ErrorHead(pages, head, total);
    }

    // ------------------------------------------------------------------------ the client side

    /** The client can take bytes while the CGI handler is attached. Once the buffer has
        drained, writing pauses and reading the pipe resumes. */
    method HandleCgiResponseWrite(io: Io)
      requires Valid() && phase.Running? && committed && cgi != null
      modifies `buffer, `sent, `wire, `mask, cgi`mask
      ensures Valid()
      ensures old(wire) <= wire && body.remaining == old(body.remaining)
      ensures |wire| == old(|wire|) + Sendable(io.space, old(|Unsent()|))
      ensures |Unsent()| == old(|Unsent()|) - Sendable(io.space, old(|Unsent()|))
      ensures buffer == "" <==> io.space >= old(|Unsent()|) || old(buffer) == ""
      ensures buffer == "" ==> !mask.write && cgi.mask.read
      ensures buffer != "" ==> buffer == old(buffer) && mask == old(mask) && cgi.mask == old(cgi.mask)
    {
      hide SettledAs;
      hide Undecided;
      hide Accounts;
      hide HeaderEnd;
      hide IsHeaderBlock;
      hide ResponseHeaders;
      hide AnnouncesLength;
      hide Get;
      hide StartLineFor;
      ghost var before := wire;
      var status;
      ghost var out;
      status, out := Send(io.space);
      AccountSend(before, out, Unsent(), "", body.remaining, total);
      if IsFullySent() {
        mask := mask.(write := false);
        cgi.mask := cgi.mask.(read := true);
      }
    }

    /** The client can take bytes and no CGI handler is attached: what is left of the buffer,
        then of the body, goes out, and with its end the response. */
    method HandleStaticResponseWrite(io: Io)
      requires Valid() && phase.Running? && committed && cgi == null
      modifies `buffer, `sent, `wire, `phase, `lost, `faulty, `cgi, `cgiIsDone, `body, `headersSent, `isDraining,
               `mask, body
      ensures Valid() && (body == null || body == old(body)) && (phase.Running? ==> cgi == null && body != null)
      ensures old(wire) <= wire
      ensures var unsent, done := old(|Unsent()|), old(body.IsDone() || body.Taken(Capacity(io), io.ready) <= 0);
        var n := old(body.Taken(Capacity(io), io.ready));
        if Sendable(io.space, unsent) < unsent then
          && phase.Running? && |wire| == old(|wire|) + Sendable(io.space, unsent)
          && |Unsent()| == unsent - Sendable(io.space, unsent)
          && body.remaining == old(body.remaining) && body.failed == old(body.failed)
        else if done then
          && phase.Finished? && |wire| == old(|wire|) + unsent
          && faulty == old(body.failed || (!body.IsDone() && body.Taken(Capacity(io), io.ready) < 0))
        else
          && phase.Running? && |wire| == old(|wire|) + unsent + Sendable(io.spaceAfter, n)
          && |Unsent()| == n - Sendable(io.spaceAfter, n)
          && |body.remaining| == old(|body.remaining|) - n && body.failed == old(body.failed)
    {
      hide SettledAs;
      hide Undecided;
      hide Accounts;
      hide HeaderEnd;
      hide IsHeaderBlock;
      hide ResponseHeaders;
      hide AnnouncesLength;
      hide Get;
      hide StartLineFor;
      ghost var before := wire;
      var status;
      ghost var out;
      status, out := Send(io.space);
      AccountSend(before, out, Unsent(), "", body.remaining, total);
      if status == SEND_ERROR || status == SEND_AGAIN {
        return;
      }
      WriteFromBody(io);
    }

    /** The second half of `HandleStaticResponseWrite`: the buffer is empty, and the body goes on. */
    method WriteFromBody(io: Io)
      requires Valid() && phase.Running? && committed && cgi == null && buffer == ""
      modifies `buffer, `sent, `wire, `phase, `lost, `faulty, `cgi, `cgiIsDone, `body, `headersSent, `isDraining,
               `mask, body
      ensures Valid() && (body == null || body == old(body)) && (phase.Running? ==> cgi == null && body != null)
      ensures old(wire) <= wire
      ensures if old(body.IsDone() || body.Taken(Capacity(io), io.ready) <= 0) then
                && phase.Finished? && |wire| == old(|wire|)
                && faulty == old(body.failed || (!body.IsDone() && body.Taken(Capacity(io), io.ready) < 0))
              else
                var n := old(body.Taken(Capacity(io), io.ready));
                && phase.Running? && |wire| == old(|wire|) + Sendable(io.spaceAfter, n)
                && |Unsent()| == n - Sendable(io.spaceAfter, n)
                && |body.remaining| == old(|body.remaining|) - n && body.failed == old(body.failed)
    {
      hide SettledAs;
      hide Undecided;
      hide Accounts;
      hide HeaderEnd;
      hide IsHeaderBlock;
      hide ResponseHeaders;
      hide AnnouncesLength;
      hide Get;
      hide StartLineFor;
      if body.IsDone() {
        AccountEnd(wire, body.remaining, total);
        FinalizeConnection();
        return;
      }
      var capacity := Capacity(io);
      var bytesRead, data := body.Read(capacity, io.ready);
      AccountRead(wire, "", data, body.remaining, total);
      if bytesRead <= 0 {
        AccountEnd(wire, body.remaining, total);
        buffer := seq(capacity, _ => '\0');
        FinalizeConnection();
        return;
      }
      buffer := data;
      AccountPush(wire, "", data, body.remaining, total);
      assert "" + data == data == Unsent();
      ghost var before := wire;
      var status;
      ghost var out;
      status, out := Send(io.spaceAfter);
      AccountSend(before, out, Unsent(), "", body.remaining, total);
    }

    /** The response is over: the connection is reset for the next request, or drained. */
    method FinalizeConnection()
      requires phase.Running? && body != null
      modifies `phase, `lost, `faulty, `cgi, `cgiIsDone, `buffer, `sent, `body, `headersSent, `isDraining, `mask
      ensures phase.Finished? && (body == null || body == old(body)) && (cgi == null || cgi == old(cgi))
      ensures lost == old(body.remaining) && faulty == old(body.failed)
      ensures isDraining <==> !isKeepAlive
      ensures isKeepAlive ==> buffer == "" && sent == 0 && body == null && cgi == null && !headersSent && !isDraining
      ensures !isKeepAlive ==> isDraining && buffer == old(buffer)
      ensures !isKeepAlive && old(isDraining) ==> mask == old(mask)
      ensures isKeepAlive || !old(isDraining) ==> mask == Mask(true, false)
    {
      phase, lost, faulty := Finished, body.remaining, body.failed;
      if isKeepAlive {
        RemoveCgi();
        buffer, sent, body, headersSent, isDraining := "", 0, null, false, false;
        mask := Mask(true, false);
      } else if !isDraining {
        isDraining := true;
        mask := Mask(true, false);
      }
    }

    method CloseConnection()
      requires Valid() && phase.Running?
      modifies `cgi, `cgiIsDone, `phase
      ensures phase.Closed? && Valid()
    {
      hide SettledAs;
      hide Undecided;
      hide Accounts;
      hide HeaderEnd;
      hide IsHeaderBlock;
      hide ResponseHeaders;
      hide AnnouncesLength;
      hide Get;
      hide StartLineFor;
      if committed {
        AccountPrefix(wire, Unsent(), body.remaining, total);
      }
      RemoveCgi();
      phase := Closed;
    }

    /** An event on the client's socket. */
    method HandleEvent(hangup: bool, writable: bool, io: Io)
      requires Valid() && phase.Running? && (writable ==> committed)
      modifies this, cgi, body
      ensures Valid() && old(wire) <= wire && counts == old(counts) && isKeepAlive == old(isKeepAlive)
      ensures committed == old(committed) && total == old(total) && head == old(head)
      ensures phase.Running? ==> cgi == old(cgi) && body == old(body)
      ensures body == null || body == old(body)
      ensures !cutOff && (phase.Closed? <==> hangup) && !unanswered
      ensures Lively(io) && old(Sound()) ==> Sound()
      ensures !hangup && writable && Lively(io) ==>
        || phase.Finished? || Potential() < old(Potential())
        || (old(buffer == "" && cgi != null) && Potential() == old(Potential()))
      ensures !hangup && writable && old(cgi != null) ==>
        && phase.Running? && (buffer == "" <==> io.space >= old(|Unsent()|) || old(buffer) == "")
        && body.remaining == old(body.remaining)
    {
      hide SettledAs;
      hide Undecided;
      hide Accounts;
      hide HeaderEnd;
      hide IsHeaderBlock;
      hide ResponseHeaders;
      hide AnnouncesLength;
      hide Get;
      hide StartLineFor;
      if hangup {
        CloseConnection();
        return;
      }
      if writable {
        if cgi != null {
          HandleCgiResponseWrite(io);
        } else {
          HandleStaticResponseWrite(io);
        }
      }
    }
  }

  class CGIHandler {
    const client: ClientHandler
    const body: ResponseBody
    var headerBuffer: string
    var state: ReadState
    var mask: Mask

    constructor (body: ResponseBody, client: ClientHandler, hasHeaderParsing: bool)
      ensures this.body == body && this.client == client && headerBuffer == "" && mask == EPOLLIN
      ensures state == if hasHeaderParsing then READING_HEADERS else STREAMING_BODY
    {
      this.body, this.client, headerBuffer, mask := body, client, "", EPOLLIN;
      state := if hasHeaderParsing then READING_HEADERS else STREAMING_BODY;
    }

    /** An event on the pipe, at any time the handler is attached. A hangup with nothing to read
        ends the response if nothing is unsent, whether or not the pipe is empty by then. */
    method HandleEvent(readable: bool, io: Io)
      requires client.Valid() && client.Settled() && client.phase.Running? && client.cgi == this
      modifies this, client, body
      ensures client.Valid() && client.Settled() && (client.phase.Running? || client.phase.Finished?)
      ensures client.wire == old(client.wire)
      ensures client.cutOff <==> !readable && old(client.buffer == "" && body.remaining != "")
      ensures client.unanswered <==> !readable && old(!client.committed)
      ensures !readable ==> client.cgi == null && (client.phase.Finished? <==> old(client.buffer == ""))
      ensures old(client.committed) ==>
        client.committed && client.total == old(client.total) && client.head == old(client.head)
      ensures client.counts == old(client.counts)
        + if readable && old(state.READING_HEADERS?) then [old(body.Taken(8192, io.ready))] else []
      ensures client.phase.Running? ==> client.body != null && (client.cgi == null || client.cgi == this)
      ensures client.body == null || client.body == body || fresh(client.body)
      ensures readable && io.ready > 0 ==> client.Sound()
      ensures readable && io.ready > 0 ==>
        || client.phase.Finished? || (client.committed && !old(client.committed))
        || client.Potential() < old(client.Potential())
        || (old(state.STREAMING_BODY? && client.IsSendBufferFull()) && client.Potential() == old(client.Potential())
            && client.phase.Running? && client.cgi == this && client.buffer == old(client.buffer)
            && client.mask == old(client.mask))
    {
      hide SettledAs;
      hide Undecided;
      hide Accounts;
      hide HeaderEnd;
      hide IsHeaderBlock;
      hide ResponseHeaders;
      hide AnnouncesLength;
      hide Get;
      hide StartLineFor;
      assert client.counts + [] == client.counts;
      if readable {
        HandleRead(io);
      } else {
        client.unanswered := !client.committed;
        client.cutOff := client.buffer == "" && body.remaining != "";
        client.OnCgiComplete();
      }
    }

    /** Reads the pipe once, unless the client's buffer is overfull. A read makes progress: it
        takes bytes off the pipe or ends the handler's work. */
    method HandleRead(io: Io)
      requires client.Valid() && client.Settled() && client.phase.Running? && client.cgi == this
      modifies this, client, body
      ensures client.Valid() && client.Settled() && (client.phase.Running? || client.phase.Finished?)
      ensures client.wire == old(client.wire) && !client.cutOff && !client.unanswered
      ensures old(client.committed) ==>
        client.committed && client.total == old(client.total) && client.head == old(client.head)
      ensures client.counts == old(client.counts)
        + if old(state.READING_HEADERS?) then [old(body.Taken(8192, io.ready))] else []
      ensures client.phase.Running? ==> client.body != null && (client.cgi == null || client.cgi == this)
      ensures client.body == null || client.body == body || fresh(client.body)
      ensures io.ready > 0 ==> client.Sound()
      ensures old(state.STREAMING_BODY? && client.IsSendBufferFull()) ==>
        && body.remaining == old(body.remaining) && client.buffer == old(client.buffer) && !mask.read
        && client.Potential() == old(client.Potential()) && client.phase.Running? && client.cgi == this
        && client.mask == old(client.mask)
      ensures io.ready > 0 && old(state.READING_HEADERS? || !client.IsSendBufferFull()) ==>
        || client.phase.Finished? || (client.committed && !old(client.committed))
        || client.Potential() < old(client.Potential())
      ensures old(state.READING_HEADERS? || !client.IsSendBufferFull()) ==>
        |body.remaining| < old(|body.remaining|) || client.cgi == null
      ensures old(state.STREAMING_BODY? && !client.IsSendBufferFull() && body.Taken(8192, io.ready) > 0) ==>
        && client.phase.Running? && client.cgi == this && client.body == body
        && |client.buffer| == old(|client.buffer| + body.Taken(8192, io.ready))
        && |body.remaining| == old(|body.remaining| - body.Taken(8192, io.ready))
        && state == old(state)
      ensures client.phase.Running? && client.cgi == this && old(state.STREAMING_BODY?) ==>
        client.IsSendBufferFull() ==> !mask.read
    {
      hide SettledAs;
      hide Undecided;
      hide Accounts;
      hide HeaderEnd;
      hide IsHeaderBlock;
      hide ResponseHeaders;
      hide AnnouncesLength;
      hide Get;
      hide StartLineFor;
      assert client.counts + [] == client.counts;
      if state.STREAMING_BODY? && client.IsSendBufferFull() {
        mask := mask.(read := false);
        return;
      }
      var n, data := body.Read(8192, io.ready);
      if state.STREAMING_BODY? {
        AccountRead(client.wire, client.Unsent(), data, body.remaining, client.total);
        ReceivedBody(n, data);
      } else {
        assert headerBuffer + data + body.remaining == headerBuffer + (data + body.remaining);
        ReceivedHeader(n, data);
      }
    }

    /** A read while the body is streaming. */
    method ReceivedBody(n: int, data: string)
      requires client.Delivering(data) && client.Settled() && client.cgi == this && state.STREAMING_BODY?
      requires !client.cutOff && !client.unanswered && (client.headersSent || client.raw)
      requires |data| <= IO_BUFFER_SIZE && (if n > 0 then n == |data| else data == "")
      requires if n > 0 then !body.isDone && !body.failed else body.remaining == "" || body.failed
      requires |client.buffer| + IO_BUFFER_SIZE <= client.Bound()
      modifies this, client
      ensures client.Valid() && client.Settled() && (client.phase.Running? || client.phase.Finished?)
      ensures client.wire == old(client.wire) && client.committed && client.counts == old(client.counts)
      ensures client.total == old(client.total) && client.head == old(client.head)
      ensures !client.cutOff && !client.unanswered && state == old(state)
      ensures if n > 0 then client.phase.Running? && client.cgi == this && client.buffer == old(client.buffer) + data
              else client.cgi == null
      ensures client.phase.Running? ==> client.body == body
      ensures n > 0 && client.IsSendBufferFull() ==> !mask.read
      ensures if n > 0 then client.Potential() == old(client.Potential()) + n
              else client.phase.Finished? || client.Potential() == old(client.Potential()) - 1
      ensures client.phase.Finished? ==> client.faulty == old(body.failed)
      ensures client.body == null || client.body == body
    {
      hide SettledAs;
      hide Undecided;
      hide Accounts;
      hide HeaderEnd;
      hide IsHeaderBlock;
      hide ResponseHeaders;
      hide AnnouncesLength;
      hide Get;
      hide StartLineFor;
      if n <= 0 {
        client.OnCgiComplete();
        return;
      }
      client.PushToSendBuffer(data);
    }

    /** A read while the headers are incomplete. It leaves the response open, or settles it: as
        an error, and then this handler is removed, or as what is built from the output. */
    method ReceivedHeader(n: int, data: string)
      requires client.AwaitingHeaders(data) && client.Settled() && client.cgi == this
      requires !client.cutOff && !client.unanswered
      requires |data| <= IO_BUFFER_SIZE && -1 <= n && (if n > 0 then n == |data| else data == "")
      requires n == 0 ==> body.remaining == ""
      requires n > 0 ==> !body.isDone && !body.failed
      modifies this, client
      ensures client.Valid() && client.Settled() && client.phase.Running? && client.wire == ""
      ensures client.counts == old(client.counts) + [n] && !client.cutOff && !client.unanswered
      ensures if Undecided(client.output, client.counts) then
                !client.committed && client.cgi == this && headerBuffer == old(headerBuffer) + data
              else
                client.committed && (client.cgi == null <==> Fails(client.output, client.counts))
      ensures n <= 0 ==> client.cgi == null
      ensures !client.committed ==> client.Potential() == old(client.Potential())
      ensures client.Sound()
      ensures client.cgi == null || (client.cgi == this && client.body == body)
      ensures client.body != null && (client.body == body || fresh(client.body))
    {
      hide Accounts;
      hide IsErrorResponse;
      hide IsCgiResponse;
      hide Undecided;
      hide Decided;
      hide Fails;
      hide HeaderEnd;
      hide ParseSection;
      HeaderRead(client.output, client.counts, n, headerBuffer + data, body.remaining);
      client.counts := client.counts + [n];
      if n <= 0 {
        Refuse();
      }
      if (|headerBuffer| + n) % SIZE_LIMIT > MAX_CGI_HEADER_SIZE {
        Refuse();
        return;
      }
      if n < 0 {
        // Appending that many bytes throws. The dispatcher's second removal of this handler then
        // fails on the closed pipe, which ends the event loop and is not modelled.
        return;
      }
      assert data == "" ==> headerBuffer + data == headerBuffer;
      headerBuffer := headerBuffer + data;
      var headerEnd := FindHeaderEnd(headerBuffer);
      if headerEnd.None? {
        return;
      }
      var ok, headers := Parse(headerBuffer, map[], false);
      if !ok {
        Refuse();
        return;
      }
      HeadersComplete(headers, headerEnd.value.End());
    }

    /** The reads of the headers settled the response as an error: it becomes the error page, unless
        it already has. */
    method Refuse()
      requires client.phase.Running? && !client.raw && client.wire == "" && !client.cutOff && !client.unanswered
      requires Decided(client.output, client.counts) && Fails(client.output, client.counts)
      requires if client.headersSent then client.Valid() && client.Settled() && client.committed && client.cgi == null
               else !client.committed && !client.mask.read
      modifies client
      ensures client.Valid() && client.Settled() && client.phase.Running? && client.wire == ""
      ensures client.committed && client.headersSent && client.cgi == null && client.counts == old(client.counts)
      ensures !client.cutOff && !client.unanswered
      ensures client.body != null && (client.body == old(client.body) || fresh(client.body))
      ensures old(!client.headersSent || client.Sound()) ==> client.Sound()
    {
      hide Accounts;
      hide IsErrorResponse;
      hide IsCgiResponse;
      hide Undecided;
      hide Decided;
      hide Fails;
      client.HandleError();
    }

    /** The headers end in the header buffer: the response begins, with the bytes after them. */
    method HeadersComplete(headers: HeaderMap, end: nat)
      requires client.phase.Running? && !client.committed && !client.raw && client.body == body && body.Valid()
      requires client.cgi == this && client.Attached() && !body.isDone && !body.failed
      requires client.wire == "" && client.buffer == "" && client.sent == 0 && !client.mask.read
      requires !client.cutOff && !client.unanswered && client.isKeepAlive == client.keepAlive
      requires headerBuffer + body.remaining == client.output && |headerBuffer| <= MAX_CGI_HEADER_SIZE
      requires HeaderEnd(headerBuffer).Some? && HeaderEnd(headerBuffer).value.End() == end <= |headerBuffer|
      requires ParseSection(headerBuffer, map[], false).headers == headers
      requires Decided(client.output, client.counts) && !Fails(client.output, client.counts)
      modifies this, client
      ensures client.Valid() && client.Settled() && client.committed && client.cgi == this && client.body == body
      ensures client.phase.Running? && client.wire == "" && client.counts == old(client.counts)
      ensures !client.cutOff && !client.unanswered
    {
      hide Accounts;
      hide Undecided;
      hide Decided;
      hide Fails;
      hide HeaderEnd;
      hide ParseSection;
      hide IsCgiHead;
      hide IsCgiResponse;
      hide Get;
      var rest := headerBuffer[end..];
      OutputHeaders(headerBuffer, body.remaining, client.output);
      client.OnCgiHeadersParsed(headers, rest);
      assert client.head + rest + body.remaining == client.head + (rest + body.remaining);
      CgiResponse(client.pages, client.output, client.head, client.total, client.keepAlive, client.isKeepAlive);
      state := STREAMING_BODY;
      if end < |headerBuffer| {
        client.PushToSendBuffer(rest);
      }
    }
  }

  // The end of the headers, and the headers, are those of the whole output, however much of it
  // had been read when they were found.
  lemma OutputHeaders(soFar: string, remaining: string, output: string)
    requires HeaderEnd(soFar).Some? && output == soFar + remaining
    ensures HeaderEnd(output) == HeaderEnd(soFar)
    ensures ParseSection(output, map[], false) == ParseSection(soFar, map[], false)
    ensures var end := HeaderEnd(soFar).value.End(); output[end..] == soFar[end..] + remaining
  {
    var d := HeaderEnd(soFar).value;
    HeaderEndStable(soFar, remaining);
    DelimiterShape(soFar, d);
    ParseSectionStable(soFar, remaining, FirstFeed(soFar, d), map[], false);
  }

  // One more read of the headers: what it decides, seen from what has been read.
  lemma HeaderRead(output: string, counts: seq<int>, n: int, soFar: string, remaining: string)
    requires Undecided(output, counts) && output == soFar + remaining && n >= -1
    requires |soFar| == Total(counts) + (if n > 0 then n else 0) && (n == 0 ==> remaining == "")
    ensures var counts' := counts + [n];
      && Total(counts') == |soFar|
      && (Undecided(output, counts') <==> n > 0 && |soFar| <= MAX_CGI_HEADER_SIZE && HeaderEnd(soFar).None?)
      && (!Undecided(output, counts') ==> Decided(output, counts'))
      && (Fails(output, counts') <==>
          n <= 0 || |soFar| > MAX_CGI_HEADER_SIZE || !ParseSection(output, map[], false).ok)
    ensures Total(counts) <= MAX_CGI_HEADER_SIZE && (n <= 0 ==> HeaderEnd(soFar).None?)
    ensures HeaderEnd(soFar).Some? ==> ParseSection(output, map[], false) == ParseSection(soFar, map[], false)
  {
    hide ParseSection;
    hide HeaderEnd;
    var counts' := counts + [n];
    assert counts'[..|counts|] == counts;
    assert Total(counts') == |soFar|;
    assert Arrived(output, |soFar|) <==> HeaderEnd(soFar).Some? by {
      assert output[..|soFar|] == soFar;
      if HeaderEnd(soFar).Some? {
        OutputHeaders(soFar, remaining, output);
      } else if HeaderEnd(output).Some? {
        HeaderEndPrefix(output, |soFar|);
      }
    }
    if HeaderEnd(soFar).Some? {
      OutputHeaders(soFar, remaining, output);
    }
    assert forall k :: 0 <= k < |counts| ==> counts'[k] == counts[k];
    assert counts'[|counts|] == n;
  }

  // Before anything is read, nothing has arrived.
  lemma NothingArrived(output: string)
    ensures Undecided(output, [])
  {
    hide HeaderEnd;
    if HeaderEnd(output).Some? {
      DelimiterShape(output, HeaderEnd(output).value);
    }
  }

  // ---------------------------------------------------------------------- batches of events

  /** What is to be reported of a descriptor: nothing, that it can be read (the pipe) or written
      (the socket), or that the other end is gone. */
  datatype Report = Quiet | Ready | HungUp

  /** A batch: what there is to report of the pipe and of the socket when the kernel is asked,
      which of the two comes first, and what the kernel answers while they are handled. */
  datatype Batch = Batch(pipe: Report, socket: Report, pipeFirst: bool, io: Io)

  /** Both ends are ready and nothing fails. */
  predicate Eager(b: Batch) {
    b.pipe.Ready? && b.socket.Ready? && Lively(b.io)
  }

  /** What the kernel reports of the pipe: readable only if that is watched; and, the process
      being gone, a hangup, with which it is readable too if bytes are left and watched. */
  function PipeReport(pipe: Report, watched: bool, remaining: string): Report {
    match pipe
    case Quiet => Quiet
    case Ready => if watched then Ready else Quiet
    case HungUp => if watched && remaining != "" then Ready else HungUp
  }

  function SocketReport(socket: Report, watched: bool): Report {
    if socket.Ready? && !watched then Quiet else socket
  }

  /** How far the reading of the headers has come: what the reads returned, and whether the response
      is still open. */
  datatype Course = Course(counts: seq<int>, open: bool)

  /** The course after one more batch, while the response is open. The pipe is watched all that
      time. */
  ghost function CourseAfter(output: string, counts: seq<int>, b: Batch): Course {
    var remaining := if Total(counts) <= |output| then output[Total(counts)..] else "";
    var pipe := PipeReport(b.pipe, true, remaining);
    if b.socket.HungUp? && !b.pipeFirst then Course(counts, false)
    else
      match pipe
      case Quiet => Course(counts, !b.socket.HungUp?)
      case HungUp => Course(counts, false)
      case Ready =>
        var more := counts + [CountOf(IO_BUFFER_SIZE, b.io.ready, |remaining|)];
        Course(more, Undecided(output, more) && !b.socket.HungUp?)
  }

  /** The course over a whole script of batches: a function of the output and of the script. */
  ghost function HeaderCourse(output: string, script: seq<Batch>): Course {
    if script == [] then Course([], true)
    else
      var before := HeaderCourse(output, script[..|script| - 1]);
      if before.open then CourseAfter(output, before.counts, script[|script| - 1]) else before
  }

  lemma {:induction false} CourseStays(output: string, script: seq<Batch>, i: nat)
    requires i <= |script| && !HeaderCourse(output, script[..i]).open
    ensures HeaderCourse(output, script) == HeaderCourse(output, script[..i])
    decreases |script|
  {
    hide CourseAfter;
    if i == |script| {
      assert script[..i] == script;
    } else {
      var init := script[..|script| - 1];
      assert init[..i] == script[..i];
      CourseStays(output, init, i);
    }
  }

  /** Two events reported together are handled one after the other, a handler that was removed
      meanwhile being passed over. */
  method HandleReports(client: ClientHandler, pipe: Report, socket: Report, pipeFirst: bool, io: Io)
    requires client.Valid() && client.Settled() && client.phase.Running?
    requires (!pipe.Quiet? ==> client.cgi != null) && (socket.Ready? ==> client.committed)
    modifies client, client.cgi, client.body
    ensures client.Valid() && client.Settled() && old(client.wire) <= client.wire
    ensures client.phase.Running? ==> client.body != null && (client.cgi == null || client.cgi == old(client.cgi))
    ensures client.body == null || client.body == old(client.body) || fresh(client.body)
    ensures old(client.committed) ==>
      client.committed && client.total == old(client.total) && client.counts == old(client.counts)
    ensures client.cutOff <==>
      && pipe.HungUp? && old(client.body.remaining != "")
      && (if pipeFirst || socket.Quiet? then old(client.buffer == "")
          else socket.Ready? && (io.space >= old(|client.Unsent()|) || old(client.buffer == "")))
    ensures client.phase.Closed? ==> socket.HungUp?
    ensures Lively(io) && old(client.Sound()) && !pipe.HungUp? ==> client.Sound()
    ensures (Lively(io) && !pipe.HungUp? && !socket.HungUp?
             && old(if client.cgi == null || client.buffer != "" then socket.Ready? else pipe.Ready?)) ==>
        || client.phase.Finished? || (client.committed && !old(client.committed))
        || client.Potential() < old(client.Potential())
    ensures client.unanswered <==> old(!client.committed) && pipe.HungUp? && (pipeFirst || !socket.HungUp?)
    ensures old(!client.committed) ==>
      && client.counts == old(client.counts)
        + (if pipe.Ready? && (pipeFirst || !socket.HungUp?) then [old(client.body.Taken(8192, io.ready))] else [])
      && (client.phase.Running? && !client.committed <==>
          Undecided(client.output, client.counts) && !pipe.HungUp? && !socket.HungUp?)
  {
    hide SettledAs;
    hide Undecided;
    hide Accounts;
    hide HeaderEnd;
    hide Total;
    assert client.counts + [] == client.counts;
    var handler := client.cgi;
    if pipeFirst {
      if !pipe.Quiet? {
        handler.HandleEvent(pipe.Ready?, io);
      }
      if client.phase.Running? && !socket.Quiet? {
        client.HandleEvent(socket.HungUp?, socket.Ready?, io);
      }
    } else {
      if !socket.Quiet? {
        client.HandleEvent(socket.HungUp?, socket.Ready?, io);
      }
      if client.phase.Running? && client.cgi == handler && !pipe.Quiet? {
        handler.HandleEvent(pipe.Ready?, io);
      }
    }
    if !client.raw {
      SettledIsDecided(client);
    }
  }

  /** A batch of events. What is reported of the pipe is what held before the socket's event was
      handled.

      Bytes are cut off exactly when a hangup is reported of a pipe that is not watched and not
      empty, and the socket's event comes first and takes everything unsent. */
  method HandleBatch(client: ClientHandler, b: Batch)
    requires client.Valid() && client.Settled() && client.phase.Running?
    modifies client, client.cgi, client.body
    ensures client.Valid() && client.Settled() && old(client.wire) <= client.wire
    ensures client.phase.Running? ==> client.body != null && (client.cgi == null || client.cgi == old(client.cgi))
    ensures client.body == null || client.body == old(client.body) || fresh(client.body)
    ensures old(client.committed) ==>
      client.committed && client.total == old(client.total) && client.counts == old(client.counts)
    ensures client.cutOff <==>
      && old(client.cgi != null && !client.cgi.mask.read && client.body.remaining != "")
      && b.pipe.HungUp? && b.socket.Ready? && !b.pipeFirst && b.io.space >= old(|client.Unsent()|)
    ensures client.phase.Closed? ==> b.socket.HungUp?
    ensures Eager(b) && old(client.Sound()) ==>
      && client.Sound()
      && (|| client.phase.Finished? || (client.committed && !old(client.committed))
          || client.Potential() < old(client.Potential()))
    ensures client.unanswered <==>
      && old(!client.committed && client.body.remaining == "")
      && b.pipe.HungUp? && (b.pipeFirst || !b.socket.HungUp?)
    ensures old(!client.committed) ==>
      var c := CourseAfter(client.output, old(client.counts), b);
      c.counts == client.counts && (c.open <==> client.phase.Running? && !client.committed)
  {
    hide SettledAs;
    hide Undecided;
    hide Accounts;
    hide HeaderEnd;
    hide Total;
    ghost var counts := client.counts;
    assert counts + [] == counts;
    if !client.committed {
      assert client.body.remaining == client.output[Total(counts)..];
    }
    var pipe := if client.cgi == null then Quiet
                else PipeReport(b.pipe, client.cgi.mask.read, client.body.remaining);
    HandleReports(client, pipe, SocketReport(b.socket, client.mask.write), b.pipeFirst, b.io);
  }

  // ------------------------------------------------------------------------------ whole runs

  /** The pipe can be read whenever it is: no read of it fails. */
  predicate Healthy(script: seq<Batch>) {
    forall i :: 0 <= i < |script| ==> script[i].io.ready > 0
  }

  /** A hangup of the pipe is handled before the event of the socket in the same batch. */
  predicate HangupsFirst(script: seq<Batch>) {
    forall i :: 0 <= i < |script| && script[i].pipe.HungUp? ==> script[i].pipeFirst
  }

  predicate AllEager(script: seq<Batch>) {
    forall i :: 0 <= i < |script| ==> Eager(script[i])
  }

  lemma PotentialBound(client: ClientHandler)
    requires client.Valid() && client.phase.Running?
    ensures client.Potential() <= if client.committed then 2 * |client.total| + 1 else |client.output| + 1
  {
    hide HeaderEnd;
  }

  /** How things stand after the first `i` batches, and why. */
  ghost predicate Served(client: ClientHandler, script: seq<Batch>, i: nat)
    requires i <= |script|
    reads client, client.body
  {
    && (!client.raw ==>
        HeaderCourse(client.output, script[..i]) == Course(client.counts, client.phase.Running? && !client.committed))
    && (HangupsFirst(script) ==> !client.cutOff)
    && (client.phase.Closed? ==> exists k :: 0 <= k < |script| && script[k].socket.HungUp?)
    && (client.unanswered ==> HeaderEnd(client.output).None?)
    && (AllEager(script) ==>
        && client.Sound() && !client.phase.Closed?
        && (client.phase.Running? ==> i + client.Potential() <= Patience(client)))
  }

  /** How many batches with both ends ready the response can take. */
  ghost function Patience(client: ClientHandler): nat
    reads client
  {
    |client.output| + if client.committed then 2 * |client.total| + 3 else 1
  }

  lemma ServedNothing(client: ClientHandler, script: seq<Batch>)
    requires client.Valid() && client.phase.Running? && client.cgi != null
    requires client.counts == [] && client.committed == client.raw
    ensures Served(client, script, 0)
  {
    hide HeaderEnd;
    hide Accounts;
    assert script[..0] == [];
    PotentialBound(client);
  }

  /** One more batch of the script. */
  method ServeBatch(client: ClientHandler, script: seq<Batch>, i: nat)
    requires client.Valid() && client.Settled() && client.phase.Running?
    requires i < |script| && Served(client, script, i)
    modifies client, client.cgi, client.body
    ensures client.Valid() && client.Settled() && Served(client, script, i + 1)
    ensures client.phase.Running? ==> client.body != null && (client.cgi == null || client.cgi == old(client.cgi))
    ensures client.body == null || client.body == old(client.body) || fresh(client.body)
  {
    hide SettledAs;
    hide HeaderEnd;
    hide Undecided;
    hide Total;
    hide CourseAfter;
    hide Accounts;
    if !client.committed && client.body.remaining == "" {
      AllRead(client.output, client.counts);
    }
    assert script[..i + 1][..i] == script[..i];
    PotentialBound(client);
    HandleBatch(client, script[i]);
    if client.phase.Running? {
      PotentialBound(client);
    }
  }

  // What holds when the script or the response has ended.
  lemma ServedAll(client: ClientHandler, script: seq<Batch>, i: nat)
    requires i <= |script| && Served(client, script, i) && (i == |script| || !client.phase.Running?)
    ensures !client.raw ==> client.counts == HeaderCourse(client.output, script).counts
    ensures HangupsFirst(script) ==> !client.cutOff
    ensures client.phase.Closed? ==> exists k :: 0 <= k < |script| && script[k].socket.HungUp?
    ensures client.unanswered ==> HeaderEnd(client.output).None?
    ensures AllEager(script) && !client.phase.Finished? ==> |script| <= Patience(client)
  {
    hide HeaderEnd;
    if !client.raw {
      if i < |script| {
        CourseStays(client.output, script, i);
      } else {
        assert script[..i] == script;
      }
    }
  }

  /** The whole response: any number of batches of events, with any answers of the kernel.

      Whatever happens, what was sent is a prefix of the response that `Settled` names, and nothing
      before it is settled; neither handler is left without an event to wait for; the buffer is
      bounded. A finished response was sent but for `lost`, and was settled unless the process
      gave no complete headers. Bytes are lost only by a failed read or by a hangup handled with
      nothing unsent and bytes in the pipe (`Ended`), and the latter only if it is handled after
      the event of the socket. Short output that answers is never refused. The connection is closed
      only by a hangup of the socket; and while both ends are ready the response finishes, after at
      most so many batches as the output and twice the response have bytes, and three. */
  method Serve(client: ClientHandler, script: seq<Batch>)
    requires client.Valid() && client.Settled() && client.phase.Running? && client.cgi != null
    requires client.counts == [] && client.committed == client.raw
    modifies client, client.cgi, client.body
    ensures client.Valid() && client.Settled()
    ensures !client.raw ==> client.counts == HeaderCourse(client.output, script).counts
    ensures client.phase.Finished? && client.committed ==>
      client.wire + client.lost == client.total && (client.lost != "" && !client.faulty <==> client.cutOff)
    ensures client.phase.Finished? && client.committed ==>
      if client.raw then client.isDraining == !client.keepAlive
      else Says(client.pages, client.head, !client.isDraining)
    ensures client.phase.Finished? && !client.committed ==> client.wire == "" && HeaderEnd(client.output).None?
    ensures !client.phase.Finished? ==> if client.committed then client.wire <= client.total else client.wire == ""
    ensures HangupsFirst(script) ==> !client.cutOff
    ensures client.phase.Closed? ==> exists i :: 0 <= i < |script| && script[i].socket.HungUp?
    ensures AllEager(script) && !client.phase.Finished? ==>
      |script| <= |client.output| + if client.committed then 2 * |client.total| + 3 else 1
    ensures client.committed && !client.raw ==>
      Healthy(script) && Answers(client.output) && |client.output| <= 8192 ==>
      !Fails(client.output, client.counts)
    ensures client.phase.Running? && client.cgi != null && client.buffer == "" ==> client.cgi.mask.read
    ensures client.phase.Running? && client.buffer != "" ==> client.mask.write
    ensures client.phase.Running? ==> !client.mask.read
    ensures client.phase.Running? && client.cgi != null ==>
      |client.buffer| <= (if |client.head| > 1024 * 1024 then |client.head| else 1024 * 1024) + 8192
  {
    hide SettledAs;
    hide HeaderEnd;
    hide Undecided;
    hide Total;
    hide Served;
    hide Says;
    var i := 0;
    ServedNothing(client, script);
    while i < |script| && client.phase.Running?
      invariant i <= |script| && client.Valid() && client.Settled() && Served(client, script, i)
      invariant client.phase.Running? ==> client.cgi == null || client.cgi == old(client.cgi)
      invariant client.phase.Running? ==> client.body != null
      invariant client.body == null || client.body == old(client.body) || fresh(client.body)
    {
      ServeBatch(client, script, i);
      i := i + 1;
    }
    ServedAll(client, script, i);
    FinishedSays(client);
    if client.phase.Running? && client.committed {
      AccountPrefix(client.wire, client.Unsent(), client.body.remaining, client.total);
    }
    if client.committed && !client.raw && Healthy(script) && Answers(client.output)
      && |client.output| <= MAX_CGI_HEADER_SIZE
    {
      SettledIsDecided(client);
      HealthyCourse(client.output, script);
      ShortOutputNeverFails(client.output, client.counts);
    }
  }

  /** The end: as long as both ends are ready and nothing fails, whatever the order and the amounts,
      the response finishes, and all of it is sent. */
  method Finish(client: ClientHandler)
    requires client.Valid() && client.Settled() && client.phase.Running? && client.Sound()
    modifies client, client.cgi, client.body
    ensures client.Valid() && client.Settled()
    ensures client.phase.Finished? && client.committed && client.wire == client.total
    ensures if client.raw then client.isDraining == !client.keepAlive
            else Says(client.pages, client.head, !client.isDraining)
  {
    hide SettledAs;
    hide HeaderEnd;
    hide Undecided;
    hide Accounts;
    hide Says;
    while client.phase.Running?
      invariant client.Valid() && client.Settled() && client.Sound() && !client.phase.Closed?
      invariant !client.cutOff && !client.unanswered
      invariant client.phase.Running? ==> client.cgi == null || client.cgi == old(client.cgi)
      invariant client.phase.Running? ==> client.body != null
      invariant client.body == null || client.body == old(client.body) || fresh(client.body)
      decreases if client.phase.Running? then 1 else 0, if client.committed then 0 else 1, client.Potential()
    {
      var pipeFirst: bool, space: nat, ready: nat, spaceAfter: nat, capacity: nat := *, *, *, *, *;
      HandleBatch(client, Batch(Ready, Ready, pipeFirst, Io(space + 1, ready + 1, spaceAfter + 1, capacity)));
    }
    assert client.wire + "" == client.wire;
    FinishedSays(client);
  }

  // A finished response has told the client whether its connection is kept.
  lemma FinishedSays(client: ClientHandler)
    requires client.Valid() && client.Settled()
    ensures client.phase.Finished? && client.committed ==>
      if client.raw then client.isDraining == !client.keepAlive
      else Says(client.pages, client.head, !client.isDraining)
  {
    hide HeaderEnd;
    hide Says;
    hide Decided;
    hide Fails;
    hide IsCgiResponse;
    hide IsErrorResponse;
    if client.phase.Finished? && client.committed && !client.raw {
      SettledSays(client.pages, client.keepAlive, client.output, client.counts, client.head, client.total,
                  client.isKeepAlive);
    }
  }

  lemma SettledIsDecided(client: ClientHandler)
    requires client.Settled() && !client.raw
    ensures client.committed ==> Decided(client.output, client.counts)
    ensures client.committed <==> !Undecided(client.output, client.counts)
  {
  }

  lemma CourseStep(output: string, counts: seq<int>, b: Batch) returns (n: int)
    ensures n >= -1 && (b.io.ready > 0 ==> n >= 0)
    ensures CourseAfter(output, counts, b).counts == counts || CourseAfter(output, counts, b).counts == counts + [n]
  {
    hide Undecided;
    hide Total;
    var remaining := if Total(counts) <= |output| then output[Total(counts)..] else "";
    n := CountOf(IO_BUFFER_SIZE, b.io.ready, |remaining|);
  }

  predicate Counted(counts: seq<int>, healthy: bool) {
    forall k :: 0 <= k < |counts| ==> counts[k] >= -1 && (healthy ==> counts[k] >= 0)
  }

  // What the reads return; and none fails on a healthy pipe.
  lemma {:induction false} HealthyCourse(output: string, script: seq<Batch>)
    ensures Counted(HeaderCourse(output, script).counts, Healthy(script))
    decreases |script|
  {
    hide CourseAfter;
    if script != [] {
      var init, b := script[..|script| - 1], script[|script| - 1];
      assert Healthy(script) ==> Healthy(init) && b.io.ready > 0;
      HealthyCourse(output, init);
      var n := CourseStep(output, HeaderCourse(output, init).counts, b);
    }
  }

  // Output read to its end, and still undecided, has no complete headers.
  lemma AllRead(output: string, counts: seq<int>)
    requires Undecided(output, counts) && Total(counts) == |output|
    ensures HeaderEnd(output).None?
  {
    hide HeaderEnd;
  }

  /** A request is left without an answer: any output without complete headers, and no longer than
      one read. It is read, and then the process ends. */
  method HangupLeavesUnanswered(contents: string, keepAlive: bool, pages: Pages) returns (client: ClientHandler)
    requires |contents| <= IO_BUFFER_SIZE && HeaderEnd(contents).None?
    ensures client.Valid() && client.Settled() && client.output == contents
    ensures client.phase.Finished? && client.unanswered && !client.committed && client.wire == ""
  {
    hide SettledAs;
    hide HeaderEnd;
    hide Accounts;
    hide Undecided;
    hide Total;
    hide CourseAfter;
    var body := new ResponseBody(true, contents);
    client := new ClientHandler(body, true, keepAlive, pages);
    var io := Io(0, IO_BUFFER_SIZE, 0, IO_BUFFER_SIZE);
    if contents != "" {
      ReadAtOnce(contents, io);
      HandleBatch(client, Batch(Ready, Quiet, true, io));
      NothingRemains(client);
    }
    HandleBatch(client, Batch(HungUp, Quiet, true, io));
  }

  // One read takes all of it, and settles nothing.
  lemma ReadAtOnce(contents: string, io: Io)
    requires 0 < |contents| <= IO_BUFFER_SIZE && HeaderEnd(contents).None? && io.ready >= IO_BUFFER_SIZE
    ensures CourseAfter(contents, [], Batch(Ready, Quiet, true, io)) == Course([|contents|], true)
    ensures Total([|contents|]) == |contents|
  {
    hide HeaderEnd;
    var counts: seq<int> := [|contents|];
    assert counts[..0] == [] && [] + counts == counts;
  }

  lemma NothingRemains(client: ClientHandler)
    requires client.Valid() && client.phase.Running? && !client.committed
    requires Total(client.counts) == |client.output|
    ensures client.body.remaining == ""
  {
    hide Accounts;
    hide Total;
  }

  /** Output is lost without a failure: any output larger than the high-water mark and one read.
      The pipe is read until the buffer is overfull and reading stops; the process ends; then, in
      one batch, the socket takes all there is and the hangup reported with it is handled. */
  method StaleHangupLosesOutput(contents: string, keepAlive: bool, pages: Pages) returns (client: ClientHandler)
    requires |contents| > 1024 * 1024 + 8192
    ensures client.Valid() && client.Settled() && client.total == contents
    ensures client.phase.Finished? && client.cutOff && !client.faulty
    ensures client.wire + client.lost == contents && client.lost != ""
  {
    hide SettledAs;
    hide HeaderEnd;
    hide Undecided;
    hide Accounts;
    var body := new ResponseBody(true, contents);
    client := new ClientHandler(body, false, keepAlive, pages);
    var handler := client.cgi;
    var io := Io(|contents|, IO_BUFFER_SIZE, 0, IO_BUFFER_SIZE);
    while !client.IsSendBufferFull()
      invariant client.Valid() && client.Settled() && client.phase.Running? && client.committed && client.raw
      invariant client.cgi == handler && fresh(handler) && client.body == body && fresh(body) && fresh(client)
      invariant |client.buffer| + |body.remaining| == |contents| && |client.buffer| <= HIGH_WATER + IO_BUFFER_SIZE
      invariant client.total == contents
      invariant client.IsSendBufferFull() ==> !handler.mask.read
      decreases |body.remaining|
    {
      handler.HandleRead(io);
    }
    HandleBatch(client, Batch(HungUp, Ready, false, io));
  }
}
