/**
  The routing decision of `ClientHandler`: which response a request method and path
  get, with the file system seen as a map from path to entry. The response is a value;
  writing it to the connection is the business of `ResponseWriter`.
*/
module Router {
  import opened Streams
  import opened JavaString
  import opened ContentType

  /** What a file-system path names: a directory or a regular file with its bytes. */
  datatype Entry = Directory | RegularFile(content: seq<Byte>)

  /** The document tree: a path that is not a key does not exist. */
  type FileSystem = map<string, Entry>

  /**
    The byte source of a response: generated text (turned into bytes by the platform
    encoding, as `getBytes()` does) or the raw bytes of a file.
  */
  datatype Body = Text(text: string) | Bytes(bytes: seq<Byte>)

  datatype Response = Response(status: string, contentType: string, body: Body)

  const StatusOk := "200 OK"
  const StatusNotFound := "404 Not Found"
  const JsonType := "application/json"
  const HtmlType := "text/html"

  const ServicesPath := "/api/services"
  const IndexPath := "/index.html"

  const ServicesJson := "{\"services\": [\"Consultoría\", \"Desarrollo de Software\", \"Soporte Técnico\"]}"
  const PostJson := "{\"message\": \"POST request handled\"}"
  const NotFoundHtml := "<html><body><h1>404 Not Found</h1></body></html>"

  /** `send404`: the one error response. */
  function NotFound(): Response
  {
    Response(StatusNotFound, HtmlType, Text(NotFoundHtml))
  }

  /** `handlePostRequest`: one fixed acknowledgment; neither path nor request body is looked at. */
  function HandlePost(): Response
  {
    Response(StatusOk, JsonType, Text(PostJson))
  }

  /**
    The static-file branch of `handleGetRequest`: the file `webRoot + path` when it exists
    and is not a directory, typed by its name; otherwise the 404 response.
  */
  function ServeStatic(path: string, webRoot: string, fs: FileSystem): (r: Response)
    ensures r.status == StatusOk <==> webRoot + path in fs && fs[webRoot + path].RegularFile?
    ensures r.status != StatusOk ==> r == NotFound()
  {
    var key := webRoot + path;
    if key in fs && fs[key].RegularFile? then
      Response(StatusOk, GetContentType(LastSegment(key)), Bytes(fs[key].content))
    else
      NotFound()
  }

  /** `handleGetRequest`: "/" is rewritten to "/index.html"; "/api/services" is answered inline. */
  function HandleGet(path: string, webRoot: string, fs: FileSystem): (r: Response)
    ensures r.status == StatusOk || r == NotFound()
  {
    if path == "/" then ServeStatic(IndexPath, webRoot, fs)
    else if path == ServicesPath then Response(StatusOk, JsonType, Text(ServicesJson))
    else ServeStatic(path, webRoot, fs)
  }

  /** The method dispatch of `run`: GET, POST, and everything else. */
  function Dispatch(verb: string, path: string, webRoot: string, fs: FileSystem): (r: Response)
    ensures r.status == StatusOk || r == NotFound()
  {
    if verb == "GET" then HandleGet(path, webRoot, fs)
    else if verb == "POST" then HandlePost()
    else NotFound()
  }

  /** `GET /` and `GET /index.html` get the same response. */
  lemma RootIsIndex(webRoot: string, fs: FileSystem)
    ensures Dispatch("GET", "/", webRoot, fs) == Dispatch("GET", IndexPath, webRoot, fs)
  {
    assert IndexPath != "/" && IndexPath != ServicesPath;
  }

  /** `GET /api/services` never consults the file system and always gets the fixed JSON list. */
  lemma ServicesIgnoresFiles(webRoot: string, fs: FileSystem)
    ensures Dispatch("GET", ServicesPath, webRoot, fs) == Response(StatusOk, JsonType, Text(ServicesJson))
  {
    assert ServicesPath != "/";
  }

  /**
    Any other GET serves `webRoot + path` exactly when it is an existing non-directory,
    with the type of its full path and its bytes as body, and is answered 404 otherwise.
  */
  lemma StaticGet(path: string, webRoot: string, fs: FileSystem)
    requires path != "/" && path != ServicesPath
    ensures var r := Dispatch("GET", path, webRoot, fs);
      var key := webRoot + path;
      && (r.status == StatusOk <==> key in fs && fs[key].RegularFile?)
      && (key in fs && fs[key].RegularFile? ==>
            r == Response(StatusOk, GetContentType(key), Bytes(fs[key].content)))
      && (!(key in fs && fs[key].RegularFile?) ==> r == NotFound())
  {
    SegmentAndPathAgree(webRoot + path);
  }

  /**
    Paths are compared exactly: anything after `/api/services` (a query string, say)
    turns the request into a static-file lookup of the whole path.
  */
  lemma ServicesPathIsExact(q: string, webRoot: string, fs: FileSystem)
    requires q != ""
    ensures Dispatch("GET", ServicesPath + q, webRoot, fs) == ServeStatic(ServicesPath + q, webRoot, fs)
  {
    assert |ServicesPath + q| > |ServicesPath| > 1;
  }

  /** Every POST gets the same acknowledgment, whatever the path and the files. */
  lemma PostIgnoresPath(path1: string, path2: string, webRoot: string, fs1: FileSystem, fs2: FileSystem)
    ensures Dispatch("POST", path1, webRoot, fs1) == Dispatch("POST", path2, webRoot, fs2)
    ensures Dispatch("POST", path1, webRoot, fs1) == Response(StatusOk, JsonType, Text(PostJson))
  {
  }

  /** A method other than GET and POST gets exactly the 404 response, whatever the path. */
  lemma OtherMethodNotFound(verb: string, path: string, webRoot: string, fs: FileSystem)
    requires verb != "GET" && verb != "POST"
    ensures Dispatch(verb, path, webRoot, fs) == NotFound()
  {
  }

  /**
    Every response is either "200 OK" or the 404 response, and the 404 status is used by
    that response alone.
  */
  lemma StatusIsOkOrNotFound(verb: string, path: string, webRoot: string, fs: FileSystem)
    ensures var r := Dispatch(verb, path, webRoot, fs);
      (r.status == StatusOk || r == NotFound()) && (r.status == StatusNotFound <==> r == NotFound())
  {
  }

  /** The scenario of serving the home page: an `index.html` under the root answers `GET /`. */
  lemma HomePageScenario(webRoot: string, page: seq<Byte>)
    ensures Dispatch("GET", "/", webRoot, map[webRoot + IndexPath := RegularFile(page)])
         == Response(StatusOk, HtmlType, Bytes(page))
  {
    var key := webRoot + IndexPath;
    var fs := map[key := RegularFile(page)];
    assert key in fs && fs[key] == RegularFile(page);
    RootIsIndex(webRoot, fs);
    StaticGet(IndexPath, webRoot, fs);
    assert EndsWith(key, Table[0].0) by {
      assert Table[0].0 == ".html";
      assert IndexPath[|IndexPath| - 5..] == ".html";
      assert key[|key| - 5..] == IndexPath[|IndexPath| - 5..];
    }
    ContentTypeOfSuffix(key, 0);
  }
}
