/** The request line, the body-size policy, and the request object the parser fills in. */
module Requests {
  import opened Base
  import opened Text
  import opened Headers

  datatype HttpMethod = GET | HEAD | POST | PUT | DELETE | UNKNOWN

  datatype StartLine = StartLine(
    httpMethod: HttpMethod,
    uri: string,
    path: string,
    queryString: string,
    version: string)

  function MatchHttpMethod(s: string): HttpMethod {
    if s == "GET" then GET
    else if s == "POST" then POST
    else if s == "PUT" then PUT
    else if s == "DELETE" then DELETE
    else if s == "HEAD" then HEAD
    else UNKNOWN
  }

  /** The first three words of some text, when it has them. */
  datatype ThreeWords = ThreeWords(first: string, second: string, third: string, rest: string)

  function TakeThree(text: string): Option<ThreeWords> {
    match NextWord(text)
    case None => None
    case Some(w1) =>
      match NextWord(w1.rest)
      case None => None
      case Some(w2) =>
        match NextWord(w2.rest)
        case None => None
        case Some(w3) => Some(ThreeWords(w1.text, w2.text, w3.text, w3.rest))
  }

  /** The request line is read from the first three words of the text, wherever its lines end. */
  function ParseStartLine(text: string): StartLine {
    match TakeThree(text)
    case None => StartLine(UNKNOWN, "", "", "", "HTTP/1.1")
    case Some(w) =>
      var q := IndexOf(w.second, '?');
      if q == |w.second| then StartLine(MatchHttpMethod(w.first), w.second, w.second, "", w.third)
      else StartLine(MatchHttpMethod(w.first), w.second, w.second[..q], w.second[q + 1..], w.third)
  }

  /** Three words that end before the text does are the same three words in any longer text. */
  lemma TakeThreeAppend(s: string, t: string)
    requires s != "" && IsSpace(s[|s| - 1]) && TakeThree(s).Some?
    ensures TakeThree(s + t) == Some(TakeThree(s).value.(rest := TakeThree(s).value.rest + t))
  {
    NextWordLast(s);
    NextWordAppend(s, t);
    var r1 := NextWord(s).value.rest;
    NextWordLast(r1);
    NextWordAppend(r1, t);
    var r2 := NextWord(r1).value.rest;
    NextWordLast(r2);
    NextWordAppend(r2, t);
  }

  lemma ParseStartLineAppend(s: string, t: string)
    requires s != "" && IsSpace(s[|s| - 1]) && TakeThree(s).Some?
    ensures ParseStartLine(s + t) == ParseStartLine(s)
  {
    TakeThreeAppend(s, t);
  }

  /** The body-size settings of the location and the server a request was routed to. */
  datatype Route = Route(location: Option<nat>, server: Option<nat>)

  const NO_ROUTE := Route(None, None)

  const DEFAULT_LIMIT: nat := 1024 * 1024

  /** The location's own setting counts before the server's, and a setting of zero means the
      default, even where the server has another. */
  function MaxAllowedContentSize(r: Route): (limit: nat)
    ensures limit > 0
    ensures r.location.Some? && r.location.value > 0 ==> limit == r.location.value
    ensures r.location.None? && r.server.Some? && r.server.value > 0 ==> limit == r.server.value
    ensures r.location == Some(0) || (r.location.None? && (r.server.None? || r.server == Some(0))) ==>
      limit == 1024 * 1024
  {
    var limit := if r.location.Some? then r.location.value
                 else if r.server.Some? then r.server.value else 0;
    if limit == 0 then DEFAULT_LIMIT else limit
  }

  function Cleared(line: StartLine): StartLine {
    line.(httpMethod := UNKNOWN, uri := "", path := "", version := "")
  }

  /** The disk behind the temporary body files. Opening, seeking and writing may fail and a
      write may be short, unless the disk is reliable. */
  class Disk {
    const reliable: bool

    method Attempt() returns (ok: bool)
      ensures reliable ==> ok
    {
      if reliable {
        ok := true;
      } else {
        ok := *;
      }
    }

    method Accept(n: nat) returns (written: int)
      ensures -1 <= written <= n
      ensures reliable ==> written == n
    {
      if reliable {
        written := n;
      } else {
        written :| -1 <= written <= n;
      }
    }

    constructor (reliable: bool)
      ensures this.reliable == reliable
    {
      this.reliable := reliable;
    }
  }

  class TempFile {
    const disk: Disk
    var isOpen: bool
    var contents: string

    constructor (disk: Disk)
      ensures this.disk == disk && !isOpen && contents == ""
    {
      this.disk := disk;
      isOpen, contents := false, "";
    }

    method Open() returns (ok: bool)
      modifies `isOpen
      ensures isOpen == ok
      ensures disk.reliable ==> ok
    {
      ok := disk.Attempt();
      isOpen := ok;
    }

    /** Appends as much of the data as the disk takes, or fails and appends nothing. */
    method Write(data: string) returns (written: int)
      modifies `contents
      ensures -1 <= written <= |data|
      ensures contents == old(contents) + (if written < 0 then "" else data[..written])
      ensures disk.reliable ==> written == |data|
    {
      written := disk.Accept(|data|);
      if written >= 0 {
        contents := contents + data[..written];
      }
    }

    method Rewind() returns (ok: bool)
      ensures disk.reliable ==> ok
    {
      ok := disk.Attempt();
    }
  }

  class Request {
    var requestLine: StartLine
    var headers: HeaderMap
    var body: TempFile?
    var route: Route

    constructor ()
      ensures requestLine == StartLine(UNKNOWN, "", "", "", "HTTP/1.1")
      ensures headers == map[] && body == null && route == NO_ROUTE
    {
      requestLine := StartLine(UNKNOWN, "", "", "", "HTTP/1.1");
      headers, body, route := map[], null, NO_ROUTE;
    }

    /** Empties the request; the query string of the old request line stays behind. */
    method Clear()
      modifies this
      ensures requestLine == Cleared(old(requestLine)) == StartLine(UNKNOWN, "", "", old(requestLine.queryString), "")
      ensures headers == map[] && body == null && route == NO_ROUTE
    {
      headers := map[];
      requestLine := requestLine.(httpMethod := UNKNOWN, uri := "", path := "", version := "");
      route := NO_ROUTE;
      body := null;
    }
  }
}
