# SimpleWebServer request handling, modelled in Dafny

This project models the per-connection logic of `SimpleWebServer`, a teaching-scale
HTTP/1.1 server. Its `ClientHandler`:

- reads one request line;
- splits it with Java's `split(" ")`, taking token 0 as the method and token 1 as the path;
- dispatches: GET serves a static file under the document root, or a fixed JSON list for
  `/api/services`; POST gets a fixed JSON acknowledgment; any other method gets the 404 page;
- writes the response as a status line, one `Content-Type` header and a blank line, then
  copies the body through a 1024-byte buffer.

Modules:

- `JavaString`: `endsWith`, `split(" ")` as Java defines it, and the last path segment
  that `File.getName` returns.
  - A string with no space splits to itself, so `""` gives `[""]`.
  - Otherwise the pieces between spaces are kept, and trailing empty pieces are dropped.
    So `" "` gives `[]` and `"GET  /"` gives `["GET", "", "/"]`.
- `ContentType`: `getContentType` as the source writes it (an if-chain). It is proved
  equal to a first-match lookup in a suffix table, and its case sensitivity and fallback
  are proved too.
- `Router`: the routing decision as pure functions that return a `Response` value.
  The file system is a map from path to `Directory` or `RegularFile(bytes)`.
- `Streams`: the connection's `OutputStream`, a class whose `written` field grows in
  place, and `ByteSource`, an input stream over a byte sequence. `ByteSource.Read` keeps
  the `InputStream.read` contract: -1 at the end, otherwise 1 to `buffer.Length` bytes.
- `ResponseWriter`: `sendResponse`.
  - `CopyStream` is the buffer loop. It is proved to write every remaining body byte
    once and in order, for any positive buffer size and any chunking by the source.
  - `ParseHead` reads a head back line by line. The round-trip lemma shows the head holds
    exactly one status line, one header and an empty line.
- `ClientHandler`: `Handle` is the pure decision on a request line. `Run` is the method
  that writes that decision's bytes to the output stream.

How the model maps the source:

- The request line is an `Option<string>`: `None` stands for `readLine` returning `null`.
- The unchecked `requestParts[1]` (and the `requestParts[0]` that fails for an all-space
  line) is the outcome `IndexOutOfBounds(i)`. Nothing is written in that case.
- The line separator of `println` and the platform's string-to-bytes encoding are
  parameters (`eol`, `enc`). Each `println` is encoded separately, since each one flushes.
- The file looked up is `webRoot + path` (plain concatenation). Its name is the text
  after the last `/`.

## Model

| member | source | states |
|---|---|---|
| JavaString.EndsWith | src/SimpleWebServer.java:122-131 | `endsWith`: the name's last characters are the suffix, compared case-sensitively; its consequences are in the `ContentType` lemmas |
| JavaString.Pieces | src/SimpleWebServer.java:60 | the pieces between spaces contain no space and there is at least one |
| JavaString.DropTrailingEmpty | src/SimpleWebServer.java:60 | the result is a prefix of the input, everything cut off is empty, and the last piece kept is non-empty |
| JavaString.Split | src/SimpleWebServer.java:60 | `split(" ")`: a space-free line gives itself; otherwise the result is a prefix of the pieces that drops only trailing empty ones and ends with a non-empty one; no token contains a space |
| JavaString.JoinPieces | src/SimpleWebServer.java:60 | splitting on spaces loses nothing: joining the pieces with single spaces gives the line back |
| JavaString.PiecesJoin | src/SimpleWebServer.java:60 | the converse: space-free pieces joined and split again are the same pieces |
| JavaString.SplitJoin | src/SimpleWebServer.java:60 | a line with at least one space splits into its pieces minus the trailing empty ones |
| JavaString.SplitEmptyIff | src/SimpleWebServer.java:60-61 | `split` gives an empty array exactly when the line is non-empty and all spaces |
| JavaString.SplitRequestLine | src/SimpleWebServer.java:60-62 | for `method SP path [SP ...]` with space-free method and non-empty path, token 0 is the method and token 1 the path |
| JavaString.SplitExamples | src/SimpleWebServer.java:60 | `"GET"`→`["GET"]`, `""`→`[""]`, `" "`→`[]`, `"GET "`→`["GET"]`, `"GET  /"`→`["GET","","/"]`, `"GET / HTTP/1.1"`→three tokens |
| JavaString.LastSegment | src/SimpleWebServer.java:90 | the file name contains no '/', is a suffix of the path, and is preceded by a '/' when it is shorter than the path |
| ContentType.GetContentTypeIsFirstMatch | src/SimpleWebServer.java:121-134 | `getContentType` equals the first-match lookup in the ordered table `.html`, `.css`, `.js`, `.png`, `.jpg` with fallback `application/octet-stream` |
| ContentType.SuffixesExclusive | src/SimpleWebServer.java:122-131 | no name ends with two different suffixes of the table |
| ContentType.ContentTypeOfSuffix | src/SimpleWebServer.java:121-132 | a name ending with a table suffix gets that row's MIME type |
| ContentType.GetContentType | src/SimpleWebServer.java:121-134 | the five `endsWith` tests in the source's order; the result is `application/octet-stream` if and only if no table suffix matches |
| ContentType.FallbackByLastChar | src/SimpleWebServer.java:121-133 | a name whose last character ends no suffix (e.g. upper case) gets the fallback type |
| ContentType.CaseSensitive | src/SimpleWebServer.java:121-133 | `INDEX.HTML`, `logo.PNG`, `page.htm` get the fallback; `index.html` and `app.js` get their types |
| ContentType.SegmentAndPathAgree | src/SimpleWebServer.java:88-90 | typing the file's name gives the same result as typing its full path |
| Router.NotFound | src/SimpleWebServer.java:116-119 | `send404`: status `404 Not Found`, type `text/html`, the fixed error page as text; `StatusIsOkOrNotFound` shows it is the only response with that status |
| Router.HandlePost | src/SimpleWebServer.java:96-100 | `handlePostRequest`: status `200 OK`, type `application/json`, the fixed acknowledgment; `PostIgnoresPath` shows it depends on nothing |
| Router.ServeStatic | src/SimpleWebServer.java:88-93 | the response is `200 OK` exactly when `webRoot + path` is an existing non-directory, and any other response is the 404 response |
| Router.HandleGet | src/SimpleWebServer.java:77-94 | every GET response is `200 OK` or the 404 response |
| Router.Dispatch | src/SimpleWebServer.java:64-70 | every dispatched response is `200 OK` or the 404 response |
| Router.RootIsIndex | src/SimpleWebServer.java:78-79 | `GET /` gets the same response as `GET /index.html` |
| Router.ServicesIgnoresFiles | src/SimpleWebServer.java:80-84 | `GET /api/services` gets 200, `application/json` and the fixed services JSON, for any file system |
| Router.StaticGet | src/SimpleWebServer.java:88-93 | any other GET is 200 exactly when `webRoot + path` is an existing non-directory. Then the type comes from the name and the body is the file's bytes; otherwise the response is exactly the 404 response |
| Router.ServicesPathIsExact | src/SimpleWebServer.java:78-90 | a GET of `/api/services` followed by anything (a query string, say) is served as a static file of that whole path, not by the API branch |
| Router.PostIgnoresPath | src/SimpleWebServer.java:96-100 | every POST gets 200, `application/json` and `{"message": "POST request handled"}`, independent of path and files |
| Router.OtherMethodNotFound | src/SimpleWebServer.java:64-70 | a method other than GET and POST gets exactly the 404 response, whatever the path |
| Router.StatusIsOkOrNotFound | src/SimpleWebServer.java:77-119 | every response is "200 OK" or the 404 response, and status 404 is used by the 404 response alone |
| Router.HomePageScenario | src/SimpleWebServer.java:77-93 | with `index.html` under the root, `GET /` gets 200, `text/html` and the page's bytes |
| Streams.OutputStream.Write | src/SimpleWebServer.java:111 | `out.write(buffer, 0, n)` appends exactly those bytes |
| Streams.ByteSource.Read | src/SimpleWebServer.java:110 | `body.read(buffer)` returns -1 exactly at the end; otherwise it returns 1 to `buffer.Length` next bytes, placed at the buffer's start |
| ResponseWriter.CopyStream | src/SimpleWebServer.java:108-112 | the copy loop writes every remaining body byte once, in order, for any positive buffer size, and drains the source |
| ResponseWriter.SendResponse | src/SimpleWebServer.java:102-114 | the output grows by the status line, the `Content-Type` line, an empty line (each with the separator) and then exactly the body |
| ResponseWriter.Send | src/SimpleWebServer.java:77-119 | each call site of `sendResponse` (lines 83, 90, 99 and 118) opens the body's byte source and writes exactly the response's serialisation |
| ResponseWriter.Head | src/SimpleWebServer.java:102-106 | the three `println` calls: status line, `Content-Type` line and empty line, each with the separator and encoded on its own; tied to the head text by `HeadIsEncodedText` |
| ResponseWriter.Serialize | src/SimpleWebServer.java:102-112 | everything `sendResponse` writes: the head, then the body's bytes; `Send` is proved to write exactly this |
| ResponseWriter.HeadIsEncodedText | src/SimpleWebServer.java:104-106 | for an encoding that works piece by piece, the bytes of the three `println` calls are the encoding of the head text that `ParseHeadRoundTrip` reads back |
| Streams.OutputStream.WriteBytes | src/SimpleWebServer.java:104-106 | a flushing `println` appends exactly its encoded line to the connection |
| ResponseWriter.SplitLineSound | src/SimpleWebServer.java:104-106 | reading a line loses nothing: the line, the separator and the rest make up the text |
| ResponseWriter.SplitLineAt | src/SimpleWebServer.java:104-106 | a line without line breaks followed by the separator splits off exactly there |
| ResponseWriter.ParseHeadRoundTrip | src/SimpleWebServer.java:104-106 | reading the head back line by line gives exactly the status, the content type and the text after the blank line |
| ResponseWriter.ContentTypeSingleLine | src/SimpleWebServer.java:121-134 | no content type contains a line break |
| ResponseWriter.ResponseHeadersSingleLine | src/SimpleWebServer.java:102-105 | every routed status and content type fits on one line |
| ResponseWriter.ResponseHeadRoundTrip | src/SimpleWebServer.java:102-106 | the head of every routed response reads back as that response's own status and type, with no further headers |
| ClientHandler.Handle | src/SimpleWebServer.java:58-71 | the decision of `run`: no request without a line, the index failure for a line that splits into fewer than two tokens, otherwise the dispatch on tokens 0 and 1; its properties are `HandleOutcomes` |
| ClientHandler.Run | src/SimpleWebServer.java:54-75 | `run` takes the decision `Handle` describes and writes its serialisation to the stream, or nothing when there is no response |
| ClientHandler.HandleOutcomes | src/SimpleWebServer.java:58-71 | no line means no response. The index failure happens exactly when split gives fewer than two tokens, at index 0 exactly for an all-space line. Otherwise the response is the dispatch on tokens 0 and 1 |
| ClientHandler.WellFormedLine | src/SimpleWebServer.java:60-70 | `method SP path [SP version]` is answered by dispatching on exactly that method and path |
| ClientHandler.MethodDecides | src/SimpleWebServer.java:64-70 | on a well-formed line a method other than GET and POST gets the 404 response, and POST the acknowledgment |
| ClientHandler.MalformedLines | src/SimpleWebServer.java:58-62 | `""`, `"GET"` and `"GET "` fail at index 1, `" "` at index 0, and `"GET  /"` looks up the empty path |
| ClientHandler.HomePageRequest | src/SimpleWebServer.java:58-93 | `GET / HTTP/1.1` with an `index.html` under the root gets 200, `text/html` and the page's bytes |

## Left out

- `SimpleWebServer.start`/`stop`, the accept loop and the ten-thread pool: network I/O and
  concurrency. A handler is modelled as one call on one connection.
- Reading from the socket. The request line is a parameter, and the rest of the request
  is never read, so it does not appear. The `try`-with-resources closing of the streams
  and the `printStackTrace` diagnostics are left out as well.
- Real file-system access (`File.exists`, `isDirectory`, `FileInputStream`): the file
  system is a map. `java.io.File` path normalisation is not modelled:
  - the lookup key is plain `webRoot + path`;
  - so a trailing `/` or a doubled `/` names a different key here than Java would open;
  - and a path without a leading `/` differs in the answer: `GET index.html` with root
    `./webroot` opens `./webroot/index.html` in Java, because `new File(parent, child)`
    inserts the separator, while the model looks up `./webrootindex.html` and answers 404.
  The `FileInputStream` that the source never closes is not modelled.
- Paths are compared exactly, as the source's `equals` does. So `GET /api/services?x=1` is
  not the API endpoint: it is looked up as a file named `/api/services?x=1`
  (`ServicesPathIsExact`). Query strings are not parsed at all.
- `..` segments stay in the lookup key unsanitised, as in the source. The flat map of the
  model has no directory structure, so it cannot show a request escaping the document
  root; nothing here claims lookups are confined to it.
- The platform charset and line separator are parameters. `ParseHeadRoundTrip` is stated
  on the text of the head, before encoding, because the encoding is abstract.
- Streams.ByteSource.Read: states the general `InputStream.read` contract (1 to
  `buffer.Length` bytes). It does not state that `ByteArrayInputStream` always fills the
  buffer as far as the data allows, so the copy loop is proved for any chunking.
- I/O failures (`IOException`) are not modelled: opening the file, reading it and writing
  the socket always succeed. In Java a file that exists but cannot be opened fails at
  `new FileInputStream` before `sendResponse` runs, so nothing is written, while the model
  answers 200; a read or write failure during the copy ends the response early.
