/**
  `ClientHandler.run`: one connection, one request line, at most one response. The
  request line is what `readLine` returned (None when the client sent nothing); the
  file system and the platform's encoding and line separator are parameters.
*/
module ClientHandler {
  import opened Wrappers
  import opened Streams
  import opened JavaString
  import opened Router
  import opened ResponseWriter

  /**
    How handling one connection ends: no request line, a response, or the
    `ArrayIndexOutOfBoundsException` raised by reading element `index` of a split
    request line that is too short.
  */
  datatype Outcome = NoRequest | Reply(response: Response) | IndexOutOfBounds(index: nat)

  /** The decision `run` takes for a request line: method token 0, path token 1. */
  function Handle(requestLine: Option<string>, webRoot: string, fs: FileSystem): Outcome
  {
    match requestLine
    case None => NoRequest
    case Some(line) =>
      var parts := Split(line);
      if |parts| == 0 then IndexOutOfBounds(0)
      else if |parts| == 1 then IndexOutOfBounds(1)
      else Reply(Dispatch(parts[0], parts[1], webRoot, fs))
  }

  /** The bytes a connection receives: a response's serialisation, or nothing at all. */
  function Transcript(o: Outcome, eol: string, enc: Encoding): seq<Byte>
  {
    match o
    case Reply(r) => Serialize(r, eol, enc)
    case _ => []
  }

  /** `run`: decides on the request line and writes the response, if any, to `out`. */
  method Run(requestLine: Option<string>, webRoot: string, fs: FileSystem,
             out: OutputStream, eol: string, enc: Encoding) returns (outcome: Outcome)
    modifies out
    ensures outcome == Handle(requestLine, webRoot, fs)
    ensures out.written == old(out.written) + Transcript(outcome, eol, enc)
  {
    if requestLine.None? {
      return NoRequest;
    }
    var parts := Split(requestLine.value);
    if |parts| < 1 {
      return IndexOutOfBounds(0);
    }
    if |parts| < 2 {
      return IndexOutOfBounds(1);
    }
    var response := Dispatch(parts[0], parts[1], webRoot, fs);
    Send(out, response, eol, enc);
    outcome := Reply(response);
  }

  /**
    The request line decides between the three outcomes: none without a line; the index
    failure exactly when `split` gives fewer than two tokens, at index 0 exactly when the
    line is non-empty and all spaces; otherwise the response to token 0 and token 1.
  */
  lemma HandleOutcomes(requestLine: Option<string>, webRoot: string, fs: FileSystem)
    ensures var o := Handle(requestLine, webRoot, fs);
      && (o == NoRequest <==> requestLine.None?)
      && (requestLine.Some? ==>
            var parts := Split(requestLine.value);
            && (o.IndexOutOfBounds? <==> |parts| < 2)
            && (o == IndexOutOfBounds(0) <==> requestLine.value != "" && AllSpaces(requestLine.value))
            && (|parts| >= 2 ==> o == Reply(Dispatch(parts[0], parts[1], webRoot, fs))))
  {
    if requestLine.Some? {
      SplitEmptyIff(requestLine.value);
    }
  }

  /**
    A line `method SP path`, optionally followed by a space and more (the protocol
    version), is answered by dispatching on exactly that method and path.
  */
  lemma WellFormedLine(verb: string, path: string, tail: string, webRoot: string, fs: FileSystem)
    requires ' ' !in verb && ' ' !in path && path != ""
    requires tail == "" || tail[0] == ' '
    ensures Handle(Some(verb + " " + path + tail), webRoot, fs) == Reply(Dispatch(verb, path, webRoot, fs))
  {
    SplitRequestLine(verb, path, tail);
  }

  /**
    A method other than GET and POST is answered with the 404 response, whatever the
    path; a POST always gets the fixed acknowledgment.
  */
  lemma MethodDecides(verb: string, path: string, tail: string, webRoot: string, fs: FileSystem)
    requires ' ' !in verb && ' ' !in path && path != ""
    requires tail == "" || tail[0] == ' '
    ensures verb != "GET" && verb != "POST" ==>
      Handle(Some(verb + " " + path + tail), webRoot, fs) == Reply(NotFound())
    ensures verb == "POST" ==>
      Handle(Some(verb + " " + path + tail), webRoot, fs) == Reply(HandlePost())
  {
    WellFormedLine(verb, path, tail, webRoot, fs);
  }

  /** The edge cases of the request line that the unchecked index reaches. */
  lemma MalformedLines(webRoot: string, fs: FileSystem)
    ensures Handle(Some(""), webRoot, fs) == IndexOutOfBounds(1)
    ensures Handle(Some("GET"), webRoot, fs) == IndexOutOfBounds(1)
    ensures Handle(Some("GET "), webRoot, fs) == IndexOutOfBounds(1)
    ensures Handle(Some(" "), webRoot, fs) == IndexOutOfBounds(0)
    ensures Handle(Some("GET  /"), webRoot, fs) == Reply(ServeStatic("", webRoot, fs))
  {
    SplitExamples();
  }

  /** The home-page scenario end to end: `GET / HTTP/1.1` serves `index.html` as HTML. */
  lemma HomePageRequest(webRoot: string, page: seq<Byte>)
    ensures Handle(Some("GET / HTTP/1.1"), webRoot, map[webRoot + IndexPath := RegularFile(page)])
         == Reply(Response(StatusOk, HtmlType, Bytes(page)))
  {
    SplitExamples();
    HomePageScenario(webRoot, page);
  }
}
