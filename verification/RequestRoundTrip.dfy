/** Requests as a client may write them: what the server reads is what was written. */
module RequestRoundTrip {
  import opened Base
  import opened Text
  import opened Headers
  import opened Requests
  import opened RequestMachine
  import opened Fragmentation
  import opened Pipelining
  import opened EndToEnd
  import C = ChunkCodec

  // --------------------------------------------------------------------- writing a request

  function MethodToString(m: HttpMethod): string {
    match m
    case GET => "GET"
    case POST => "POST"
    case PUT => "PUT"
    case DELETE => "DELETE"
    case HEAD => "HEAD"
    case UNKNOWN => "UNKNOWN"
  }

  predicate IsWord(s: string) {
    s != "" && forall k :: 0 <= k < |s| ==> !IsSpace(s[k])
  }

  /** A request line that can be written: a known method, a target and a version without blanks,
      the target being the path, or the path, a question mark and the query. */
  predicate Proper(line: StartLine) {
    && !line.httpMethod.UNKNOWN? && IsWord(line.uri) && IsWord(line.version) && '?' !in line.path
    && (line.uri == line.path + "?" + line.queryString || (line.uri == line.path && line.queryString == ""))
  }

  /** Blanks that do not end a line. */
  predicate Gap(s: string) {
    forall k :: 0 <= k < |s| ==> s[k] in SPACES && s[k] != '\n'
  }

  /** A head as a client may write it: the words of the request line with any blanks between and after
      them, header lines with names in any letter case and any blanks, and an empty line. Any of the
      lines may end with a carriage return and a line feed, or with a line feed alone. */
  datatype WrittenHead = WrittenHead(
    line: StartLine, one: string, two: string, after: string, fields: seq<Written>, empty: string)
  {
    function FirstLine(): string {
      MethodToString(line.httpMethod) + one + line.uri + two + line.version + after
    }

    function Text(): string {
      FirstLine() + "\n" + Lines(fields) + empty
    }

    predicate Valid() {
      && Proper(line) && one != "" && two != "" && Gap(one) && Gap(two) && Gap(after)
      && AllWritten(fields, false) && (empty == "\n" || empty == "\r\n")
      && |Text()| < SIZE_LIMIT
    }
  }

  // -------------------------------------------------------------------- the request line

  lemma PrintedMethod(m: HttpMethod)
    requires !m.UNKNOWN?
    ensures MatchHttpMethod(MethodToString(m)) == m && IsWord(MethodToString(m))
  {
  }

  /** Exactly the five names are known: any other word, also in another letter case, is no method. */
  lemma MethodsKnown(s: string, m: HttpMethod)
    requires !m.UNKNOWN?
    ensures MatchHttpMethod(s) == m <==> s == MethodToString(m)
    ensures MatchHttpMethod(s).UNKNOWN? <==> s !in ["GET", "POST", "PUT", "DELETE", "HEAD"]
  {
  }

  lemma GapIsSpace(s: string)
    requires Gap(s)
    ensures forall k :: 0 <= k < |s| ==> IsSpace(s[k]) && s[k] != '\n'
  {
    forall k | 0 <= k < |s| ensures IsSpace(s[k]) {
      SpaceTable(s[k]);
    }
  }

  lemma PrintedLine(w: WrittenHead, rest: string)
    requires w.Valid() && rest != "" && IsSpace(rest[0])
    ensures ParseStartLine(w.FirstLine() + rest) == w.line && TakeThree(w.FirstLine() + rest).Some?
  {
    hide TakeThree;
    var verb := MethodToString(w.line.httpMethod);
    PrintedMethod(w.line.httpMethod);
    GapIsSpace(w.one);
    GapIsSpace(w.two);
    GapIsSpace(w.after);
    var all := w.FirstLine() + rest;
    assert all == verb + w.one + w.line.uri + w.two + w.line.version + (w.after + rest);
    ThreeWordsAre(all, verb, w.line.uri, w.line.version, w.one, w.two, w.after + rest);
    SplitTarget(w.line);
  }

  lemma SplitTarget(line: StartLine)
    requires Proper(line)
    ensures var q := IndexOf(line.uri, '?');
      if q == |line.uri| then line.path == line.uri && line.queryString == ""
      else line.path == line.uri[..q] && line.queryString == line.uri[q + 1..]
  {
    if line.uri == line.path + "?" + line.queryString {
      assert forall k :: 0 <= k < |line.path| ==> line.uri[k] == line.path[k];
      IndexOfFound(line.uri, '?', |line.path|);
    } else {
      IndexOfAbsent(line.uri, '?');
    }
  }

  lemma LineHasNoFeed(w: WrittenHead)
    requires w.Valid()
    ensures w.FirstLine() != "" && !IsLineEnd(w.FirstLine()[0]) && '\n' !in w.FirstLine()
  {
    PrintedMethod(w.line.httpMethod);
    var verb := MethodToString(w.line.httpMethod);
    assert w.FirstLine()[0] == verb[0];
    assert forall c :: c in w.FirstLine() ==>
      c in verb || c in w.one || c in w.line.uri || c in w.two || c in w.line.version || c in w.after;
  }

  // -------------------------------------------------------------------- the end of the head

  // No header line is blank: the only blank line is the last one.
  lemma {:induction false} OnlyLastBlank(fs: seq<Written>, empty: string)
    requires AllWritten(fs, false) && (empty == "\n" || empty == "\r\n")
    ensures var t := "\n" + Lines(fs) + empty; var i := |t| - 1 - |empty|;
      && i >= 0 && BlankLineAfter(t, i) && (forall k :: 0 <= k < i ==> !BlankLineAfter(t, k))
      && (fs == [] <==> i == 0)
    decreases |fs|
  {
    if fs == [] {
      assert "\n" + Lines(fs) + empty == "\n" + empty;
    } else {
      hide Written.Line;
      hide Written.Valid;
      hide BlankLineAfter;
      hide Lines;
      var field, u := "\n" + fs[0].Line(), "\n" + Lines(fs[1..]) + empty;
      LinesFirst(fs, empty);
      OnlyLastBlank(fs[1..], empty);
      FieldNotBlank(fs[0], u);
      LastBlankAfter(field, u, |u| - 1 - |empty|);
    }
  }

  lemma LinesFirst(fs: seq<Written>, empty: string)
    requires fs != []
    ensures "\n" + Lines(fs) + empty == ("\n" + fs[0].Line()) + ("\n" + Lines(fs[1..]) + empty)
  {
    hide Written.Line;
    var line, later := fs[0].Line(), Lines(fs[1..]);
    assert Lines(fs) == line + "\n" + later;
    Regroup("\n", line, later, empty);
  }

  lemma Regroup(feed: string, line: string, later: string, empty: string)
    ensures feed + (line + feed + later) + empty == (feed + line) + (feed + later + empty)
  {
  }

  lemma LastBlankAfter(s: string, t: string, i: nat)
    requires i < |t| && BlankLineAfter(t, i) && forall k :: 0 <= k < i ==> !BlankLineAfter(t, k)
    requires forall k :: 0 <= k < |s| ==> !BlankLineAfter(s + t, k)
    ensures BlankLineAfter(s + t, |s| + i) && forall k :: 0 <= k < |s| + i ==> !BlankLineAfter(s + t, k)
  {
    hide BlankLineAfter;
    BlankLinesShift(s, t);
    assert BlankLineAfter(s + t, |s| + i) == BlankLineAfter(t, i);
    forall k | 0 <= k < |s| + i ensures !BlankLineAfter(s + t, k) {
      if k >= |s| {
        assert BlankLineAfter(s + t, |s| + (k - |s|)) == BlankLineAfter(t, k - |s|);
      }
    }
  }

  lemma BlankLinesShift(s: string, t: string)
    ensures forall k :: 0 <= k < |t| ==> BlankLineAfter(s + t, |s| + k) == BlankLineAfter(t, k)
  {
  }

  lemma FieldNotBlank(f: Written, rest: string)
    requires f.Valid()
    ensures var field := "\n" + f.Line();
      forall k :: 0 <= k < |field| ==> !BlankLineAfter(field + rest, k)
  {
    WrittenShape(f);
    hide Written.Line;
    var line := f.Line();
    var s := "\n" + line + rest;
    assert forall k :: 0 <= k < |line| ==> s[1 + k] == line[k] && line[k] in line;
  }

  // A first line, then text whose only blank line is the last: where they end.
  lemma ShapeOf(front: string, t: string, i: nat)
    requires '\n' !in front && t != "" && t[0] == '\n' && i < |t|
    requires BlankLineAfter(t, i) && forall k :: 0 <= k < i ==> !BlankLineAfter(t, k)
    ensures var head := front + t;
      && BlankLineAfter(head, |front| + i) && HeaderEnd(head) == Some(DelimiterOf(head, |front| + i))
      && FirstDelimiter(head, DelimiterOf(head, |front| + i))
      && '\n' in head && IndexOf(head, '\n') == |front|
  {
    hide HeaderEnd;
    hide IndexOf;
    var head := front + t;
    assert forall k :: 0 <= k < |front| ==> head[k] == front[k] && front[k] in front;
    LastBlankAfter(front, t, i);
    FirstFromFeed(head, |front| + i);
    HeaderEndIs(head, DelimiterOf(head, |front| + i));
    assert head[|front|] == '\n';
    IndexOfFound(head, '\n', |front|);
  }

  // Where a written head ends, and where its first line does.
  lemma HeadShape(w: WrittenHead) returns (d: Delimiter)
    requires w.Valid()
    ensures var head := w.Text();
      && HeaderEnd(head) == Some(d) && FirstDelimiter(head, d) && d.End() == |head| && d.length >= 2
      && '\n' in head && IndexOf(head, '\n') == |w.FirstLine()|
      && FirstFeed(head, d) == |head| - 1 - |w.empty|
      && (w.fields == [] <==> FirstFeed(head, d) == |w.FirstLine()|)
  {
    hide HeaderEnd;
    hide FirstDelimiter;
    hide IndexOf;
    hide AllWritten;
    hide Lines;
    hide WrittenHead.FirstLine;
    var head, front := w.Text(), w.FirstLine();
    var t := "\n" + Lines(w.fields) + w.empty;
    assert head == front + t;
    LineHasNoFeed(w);
    OnlyLastBlank(w.fields, w.empty);
    var i := |t| - 1 - |w.empty|;
    ShapeOf(front, t, i);
    d := DelimiterOf(head, |front| + i);
    assert head[|head| - |w.empty|..] == w.empty;
    assert head[|front| + i + 1] == w.empty[0];
  }

  // The header lines between them are read as the written headers.
  lemma WrittenSection(w: WrittenHead, d: Delimiter)
    requires w.Valid() && HeaderEnd(w.Text()) == Some(d) && FirstDelimiter(w.Text(), d)
    requires d.End() == |w.Text()| && d.length >= 2 && FirstFeed(w.Text(), d) == |w.Text()| - 1 - |w.empty|
    requires '\n' in w.Text() && IndexOf(w.Text(), '\n') == |w.FirstLine()|
    requires w.fields == [] <==> FirstFeed(w.Text(), d) == |w.FirstLine()|
    ensures ParseSection(HeaderSection(w.Text(), d), map[], false) == Parsed(true, AddAll(map[], w.fields))
  {
    hide HeaderSection;
    hide ParseSection;
    hide HeaderEnd;
    hide IndexOf;
    hide AllWritten;
    hide IsDelimiter;
    hide WrittenHead.FirstLine;
    var head, first, lines := w.Text(), w.FirstLine(), Lines(w.fields);
    if w.fields == [] {
      NoHeaderLines(head, d, |first|, map[]);
    } else {
      LinesEnd(w.fields);
      SomeSection(head, first, lines, w.empty, d);
      ParseWritten(w.fields, "", map[], false);
      ParseSectionEnds(AddAll(map[], w.fields), false);
      assert lines + "" == lines;
      if w.empty == "\n" {
        FinalFeed(HeaderSection(head, d), map[], false);
      } else {
        assert HeaderSection(head, d) + "" == HeaderSection(head, d);
      }
    }
  }

  lemma SomeSection(head: string, first: string, lines: string, empty: string, d: Delimiter)
    requires head == first + "\n" + lines + empty && lines != "" && lines[|lines| - 1] == '\n'
    requires (empty == "\n" || empty == "\r\n") && |head| < SIZE_LIMIT
    requires FirstDelimiter(head, d) && d.End() == |head| && d.length >= 2 && FirstFeed(head, d) == |head| - 1 - |empty|
    requires '\n' in head && IndexOf(head, '\n') == |first|
    ensures HeaderSection(head, d) + (if empty == "\n" then "\n" else "") == lines
  {
    hide HeaderSection;
    hide IndexOf;
    hide IsDelimiter;
    assert head[|first|] == '\n';
    HeaderLinesInside(head, d, |first|);
    SectionOf(head, d, |first|);
    assert HeaderSection(head, d) == head[|first| + 1..|head| - 2];
    CutLines(head, first, lines, empty);
  }

  // All but the last two bytes of what follows the first line.
  lemma CutLines(head: string, first: string, lines: string, empty: string)
    requires head == first + "\n" + lines + empty && lines != "" && lines[|lines| - 1] == '\n'
    requires empty == "\n" || empty == "\r\n"
    ensures head[|first| + 1..|head| - 2] + (if empty == "\n" then "\n" else "") == lines
  {
    var section := head[|first| + 1..|head| - 2];
    if empty == "\n" {
      assert section == lines[..|lines| - 1];
    } else {
      assert section == lines && section + "" == section;
    }
  }

  lemma {:induction false} LinesEnd(fs: seq<Written>)
    requires fs != []
    ensures var s := Lines(fs); s != "" && s[|s| - 1] == '\n'
    decreases |fs|
  {
    if |fs| > 1 {
      LinesEnd(fs[1..]);
    } else {
      assert Lines(fs[1..]) == "";
    }
  }

  // ----------------------------------------------------------------------------- round trips

  /** Any written head is well formed, and what is read is its request line and its headers. */
  lemma HeadRoundTrip(w: WrittenHead)
    requires w.Valid()
    ensures WellFormedHead("", w.Text()) && HeadOf(w.Text()) == Head(w.line, AddAll(map[], w.fields))
  {
    hide HeaderSection;
    hide ParseSection;
    hide TakeThree;
    hide ParseStartLine;
    hide HeaderEnd;
    hide IndexOf;
    hide FirstDelimiter;
    hide AllWritten;
    hide WrittenHead.FirstLine;
    var head := w.Text();
    var d := HeadShape(w);
    WrittenSection(w, d);
    LineHasNoFeed(w);
    var rest := "\n" + Lines(w.fields) + w.empty;
    assert head == w.FirstLine() + rest && rest[0] == '\n';
    PrintedLine(w, rest);
  }

  /** What a request is to be received as: its request line; under each name, in any letter case, the
      last value written; and its body. */
  ghost predicate ReceivedAs(o: Outcome, w: WrittenHead, body: Option<string>) {
    && o.Complete? && o.line == w.line && o.body == body
    && forall name :: Get(o.headers, name) == LastValue(w.fields, name)
  }

  /** The headers say how long the body is, in decimal, or nothing if there is none; and of no
      transfer coding. */
  predicate AnnouncesBody(w: WrittenHead, body: string) {
    && !Has(w.fields, "Transfer-Encoding") && |body| < 0x8000_0000_0000_0000
    && if Has(w.fields, "Content-Length") then LastValue(w.fields, "Content-Length") == Some(Decimal(|body|))
       else body == ""
  }

  lemma Announced(w: WrittenHead, body: string)
    requires w.Valid() && AnnouncesBody(w, body)
    ensures var h := AddAll(map[], w.fields); !IsContentChunked(h) && ContentLength(h) == |body|
  {
    hide AddAll;
    hide Has;
    hide LastValue;
    hide Decimal;
    hide IsContentChunked;
    hide ContentLength;
    WrittenAnnounce(w.fields, |body|);
  }

  lemma MeansWritten(w: WrittenHead, o: Outcome, body: Option<string>)
    requires w.Valid() && o == Complete(w.line, AddAll(map[], w.fields), body)
    ensures ReceivedAs(o, w, body)
  {
    hide Get;
    hide LastValue;
    hide AddAll;
    forall name ensures Get(o.headers, name) == LastValue(w.fields, name) {
      AddAllMeans(w.fields, name);
    }
  }

  /** From bytes to a request: any written head, with a body of the length it announces, cut in any way
      that fits the header buffer and followed by anything, is received as it was written; or it is
      refused as too large, exactly when the body is longer than the limit of its route. */
  lemma RequestRoundTrip(
    router: Router, maxHeaderSize: nat, last: StartLine, w: WrittenHead,
    body: string, surplus: string, fragments: seq<string>)
    requires w.Valid() && |w.Text()| <= maxHeaderSize && AnnouncesBody(w, body)
    requires Concat(fragments) == w.Text() + (body + surplus)
    requires !Overfilled(maxHeaderSize, w.Text() + (body + surplus), Window("", 0, fragments))
    ensures var o := View(DeliverAll(Initial(maxHeaderSize, last), fragments, router));
      if |body| > MaxAllowedContentSize(router(w.line, AddAll(map[], w.fields))) then o == Refused(PayloadTooLarge)
      else ReceivedAs(o, w, if body == "" then None else Some(body))
  {
    hide *;
    var head := w.Text();
    HeadRoundTrip(w);
    Announced(w, body);
    assert "" + head + (body + surplus) == head + (body + surplus);
    LengthRequest(router, maxHeaderSize, last, "", head, body, surplus, fragments);
    if |body| <= MaxAllowedContentSize(router(w.line, AddAll(map[], w.fields))) {
      MeansWritten(w, View(DeliverAll(Initial(maxHeaderSize, last), fragments, router)),
                   if body == "" then None else Some(body));
    }
  }

  /** The same for a body sent in chunks: its data, cut into pieces in any way, each sent with its
      length in any style. It needs a transfer coding, of whatever value, and no length. */
  lemma ChunkedRoundTrip(
    router: Router, maxHeaderSize: nat, last: StartLine, w: WrittenHead, pieces: seq<string>,
    styles: seq<C.HexStyle>, end: C.HexStyle, surplus: string, fragments: seq<string>)
    requires w.Valid() && |w.Text()| <= maxHeaderSize && Has(w.fields, "Transfer-Encoding")
    requires |styles| == |pieces| && forall i :: 0 <= i < |pieces| ==> 0 < |pieces[i]| < SIZE_LIMIT
    requires |C.Joined(pieces)| < SIZE_LIMIT
    requires MaxAllowedContentSize(router(w.line, AddAll(map[], w.fields))) < SIZE_LIMIT
    requires var sent := C.EncodeBody(C.Printed(pieces, styles), C.PrintHex(0, end)) + surplus;
      && Concat(fragments) == w.Text() + sent
      && !Overfilled(maxHeaderSize, w.Text() + sent, Window("", 0, fragments))
    ensures var o := View(DeliverAll(Initial(maxHeaderSize, last), fragments, router));
      if |C.Joined(pieces)| > MaxAllowedContentSize(router(w.line, AddAll(map[], w.fields))) then
        o == Refused(PayloadTooLarge)
      else ReceivedAs(o, w, Some(C.Joined(pieces)))
  {
    hide *;
    var head := w.Text();
    var chunks, zero := C.Printed(pieces, styles), C.PrintHex(0, end);
    HeadRoundTrip(w);
    ChunkedAnnounced(w);
    C.PrintedData(pieces, styles);
    ZeroPrinted(end);
    var tail := C.EncodeBody(chunks, zero) + surplus;
    assert "" + head + tail == head + tail;
    ChunkedRequest(router, maxHeaderSize, last, "", head, chunks, zero, surplus, fragments);
    if |C.Joined(pieces)| <= MaxAllowedContentSize(router(w.line, AddAll(map[], w.fields))) {
      MeansWritten(w, View(DeliverAll(Initial(maxHeaderSize, last), fragments, router)), Some(C.Joined(pieces)));
    }
  }

  lemma ChunkedAnnounced(w: WrittenHead)
    requires w.Valid() && Has(w.fields, "Transfer-Encoding")
    ensures IsContentChunked(AddAll(map[], w.fields))
  {
    hide AddAll;
    hide Has;
    hide IsContentChunked;
    WrittenAnnounce(w.fields, 0);
  }

  lemma ZeroPrinted(end: C.HexStyle)
    ensures C.IsZeroSize(C.PrintHex(0, end))
  {
    C.HexRoundTrip(0, end);
  }

  /** In a pipeline: a written request with a body of the announced length is a well-formed message,
      blank lines before it allowed, and reading it must give back what was written. */
  lemma WrittenMessage(router: Router, blank: string, w: WrittenHead, body: string)
    requires w.Valid() && AnnouncesBody(w, body)
    requires forall k :: 0 <= k < |blank| ==> blank[k] == '\r' || blank[k] == '\n'
    requires |body| <= MaxAllowedContentSize(router(w.line, AddAll(map[], w.fields)))
    ensures var m := Message(blank, w.Text(), body, Sized);
      WellFormed(m, router) && ReceivedAs(Expected(m), w, if body == "" then None else Some(body))
  {
    hide HeadOf;
    hide WrittenHead.Text;
    hide WrittenHead.Valid;
    hide AnnouncesBody;
    hide HeaderEnd;
    hide TakeThree;
    hide AddAll;
    hide ReceivedAs;
    hide IsContentChunked;
    hide ContentLength;
    hide MaxAllowedContentSize;
    HeadRoundTrip(w);
    Announced(w, body);
    MeansWritten(w, Expected(Message(blank, w.Text(), body, Sized)), if body == "" then None else Some(body));
  }

  /** And the same for a body sent in chunks. */
  lemma WrittenChunkedMessage(
    router: Router, blank: string, w: WrittenHead, pieces: seq<string>, styles: seq<C.HexStyle>, end: C.HexStyle)
    requires w.Valid() && Has(w.fields, "Transfer-Encoding")
    requires forall k :: 0 <= k < |blank| ==> blank[k] == '\r' || blank[k] == '\n'
    requires |styles| == |pieces| && forall i :: 0 <= i < |pieces| ==> 0 < |pieces[i]| < SIZE_LIMIT
    requires |C.Joined(pieces)| <= MaxAllowedContentSize(router(w.line, AddAll(map[], w.fields))) < SIZE_LIMIT
    ensures var body := C.Joined(pieces);
      var m := Message(blank, w.Text(), body, Chunked(C.Printed(pieces, styles), C.PrintHex(0, end)));
      WellFormedChunked(m, router) && ReceivedAs(Expected(m), w, Some(body))
  {
    hide HeadOf;
    hide WrittenHead.Text;
    hide WrittenHead.Valid;
    hide HeaderEnd;
    hide TakeThree;
    hide AddAll;
    hide Has;
    hide ReceivedAs;
    hide IsContentChunked;
    hide ContentLength;
    hide MaxAllowedContentSize;
    hide C.AllValid;
    hide C.IsZeroSize;
    hide C.Printed;
    hide C.PrintHex;
    hide C.Joined;
    var body := C.Joined(pieces);
    HeadRoundTrip(w);
    ChunkedAnnounced(w);
    C.PrintedData(pieces, styles);
    ZeroPrinted(end);
    MeansWritten(w, Expected(Message(blank, w.Text(), body, Chunked(C.Printed(pieces, styles), C.PrintHex(0, end)))),
                 Some(body));
  }
}
