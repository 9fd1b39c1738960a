/**
  `ClientHandler.sendResponse`: the status line, one `Content-Type` header and a blank
  line, each written by a flushing `println`, then the body copied from its byte source
  through a fixed-size buffer.
*/
module ResponseWriter {
  import opened Wrappers
  import opened Streams
  import opened JavaString
  import opened ContentType
  import opened Router

  /** The size of the copy buffer of `sendResponse`. */
  const BufferSize := 1024

  const StatusPrefix := "HTTP/1.1 "
  const HeaderPrefix := "Content-Type: "

  function StatusLine(status: string): string
  {
    StatusPrefix + status
  }

  function HeaderLine(contentType: string): string
  {
    HeaderPrefix + contentType
  }

  /**
    The bytes of the three `println` calls: the status line, the header and the empty
    line, each followed by the line separator `eol` and encoded on its own.
  */
  function Head(status: string, contentType: string, eol: string, enc: Encoding): seq<Byte>
  {
    enc(StatusLine(status) + eol) + enc(HeaderLine(contentType) + eol) + enc(eol)
  }

  /** The bytes a body's source yields: encoded text, or a file's bytes as they are. */
  function BodyBytes(body: Body, enc: Encoding): seq<Byte>
  {
    match body
    case Text(t) => enc(t)
    case Bytes(b) => b
  }

  /** Everything `sendResponse` puts on the connection for response `r`. */
  function Serialize(r: Response, eol: string, enc: Encoding): seq<Byte>
  {
    Head(r.status, r.contentType, eol, enc) + BodyBytes(r.body, enc)
  }

  /**
    The copy loop: reads `body` chunk by chunk into a buffer of `bufferSize` bytes and
    writes each chunk to `out`, until the source reports its end. Whatever the buffer size
    and however the source chunks its data, every remaining byte is written once, in order.
  */
  method CopyStream(body: ByteSource, out: OutputStream, bufferSize: nat)
    requires body.Valid() && bufferSize > 0
    modifies body, out
    ensures body.Valid() && body.pos == |body.data|
    ensures out.written == old(out.written) + old(body.Remaining())
  {
    var buffer := new Byte[bufferSize];
    while true
      invariant body.Valid() && old(body.pos) <= body.pos
      invariant out.written == old(out.written) + body.data[old(body.pos)..body.pos]
      decreases |body.data| - body.pos
    {
      ghost var before := body.pos;
      var bytesRead := body.Read(buffer);
      if bytesRead == -1 {
        break;
      }
      out.Write(buffer, 0, bytesRead);
      assert body.data[old(body.pos)..body.pos]
          == body.data[old(body.pos)..before] + body.data[before..body.pos];
    }
  }

  /** `sendResponse(out, status, contentType, body)`. */
  method SendResponse(out: OutputStream, status: string, contentType: string, body: ByteSource,
                      eol: string, enc: Encoding)
    requires body.Valid()
    modifies out, body
    ensures body.Valid() && body.pos == |body.data|
    ensures out.written == old(out.written) + Head(status, contentType, eol, enc) + old(body.Remaining())
  {
    out.WriteBytes(enc(StatusLine(status) + eol));
    out.WriteBytes(enc(HeaderLine(contentType) + eol));
    out.WriteBytes(enc(eol));
    CopyStream(body, out, BufferSize);
  }

  /** Opens the byte source of `r` (an in-memory buffer or the file) and sends `r`. */
  method Send(out: OutputStream, r: Response, eol: string, enc: Encoding)
    modifies out
    ensures out.written == old(out.written) + Serialize(r, eol, enc)
  {
    var source := new ByteSource(BodyBytes(r.body, enc));
    SendResponse(out, r.status, r.contentType, source, eol, enc);
  }

  // The head as text, and what a client reading it line by line recovers from it.

  /** The two line separators `println` may use. */
  predicate IsLineSeparator(eol: string)
  {
    eol == "\n" || eol == "\r\n"
  }

  /** Text with no line-break character. */
  predicate SingleLine(s: string)
  {
    '\n' !in s && '\r' !in s
  }

  /** The head as the text that the three `println` calls print. */
  function HeadText(status: string, contentType: string, eol: string): string
  {
    StatusLine(status) + eol + HeaderLine(contentType) + eol + eol
  }

  /** The text before the first `eol` and the text after it, or None when `t` has no `eol`. */
  function SplitLine(t: string, eol: string): Option<(string, string)>
    requires eol != []
    decreases |t|
  {
    if StartsWith(t, eol) then Some(([], t[|eol|..]))
    else if t == [] then None
    else
      var next := SplitLine(t[1..], eol);
      if next.None? then None else Some(([t[0]] + next.value.0, next.value.1))
  }

  /** A split at a separator loses nothing: line, separator and rest make up the text. */
  lemma {:induction false} SplitLineSound(t: string, eol: string)
    requires eol != []
    ensures SplitLine(t, eol).Some? ==>
      t == SplitLine(t, eol).value.0 + eol + SplitLine(t, eol).value.1
    decreases |t|
  {
    if StartsWith(t, eol) {
      assert t == t[..|eol|] + t[|eol|..];
    } else if t != [] {
      var tail := t[1..];
      SplitLineSound(tail, eol);
      var next := SplitLine(tail, eol);
      if next.Some? {
        var first, line, rest := [t[0]], next.value.0, next.value.1;
        assert SplitLine(t, eol) == Some((first + line, rest));
        assert t == first + tail;
        ConcatAssoc(first, line, eol, rest);
      }
    }
  }

  /**
    The bytes `Head` writes are the encoded head text whenever the encoding works piece
    by piece, as a stateless charset encoder does: the `println` calls then put on the
    connection exactly what `HeadText` spells out.
  */
  lemma HeadIsEncodedText(status: string, contentType: string, eol: string, enc: Encoding)
    requires forall a: string, b: string :: enc(a + b) == enc(a) + enc(b)
    ensures Head(status, contentType, eol, enc) == enc(HeadText(status, contentType, eol))
  {
    var l1, l2 := StatusLine(status) + eol, HeaderLine(contentType) + eol;
    assert HeadText(status, contentType, eol) == (l1 + l2) + eol;
    assert enc((l1 + l2) + eol) == enc(l1 + l2) + enc(eol);
    assert enc(l1 + l2) == enc(l1) + enc(l2);
  }

  /**
    A client's reading of a response head: a status line, one `Content-Type` header and
    an empty line; gives the status, the content type and the text after the head.
  */
  function ParseHead(t: string, eol: string): Option<(string, string, string)>
    requires eol != []
  {
    match SplitLine(t, eol)
    case None => None
    case Some(first) =>
      match SplitLine(first.1, eol)
      case None => None
      case Some(second) =>
        match SplitLine(second.1, eol)
        case None => None
        case Some(third) =>
          if StartsWith(first.0, StatusPrefix) && StartsWith(second.0, HeaderPrefix) && third.0 == []
          then Some((first.0[|StatusPrefix|..], second.0[|HeaderPrefix|..], third.1))
          else None
  }

  /** A single line followed by the separator splits off exactly at that separator. */
  lemma {:induction false} SplitLineAt(a: string, b: string, eol: string)
    requires IsLineSeparator(eol) && SingleLine(a)
    ensures SplitLine(a + eol + b, eol) == Some((a, b))
  {
    var t := a + eol + b;
    if a == [] {
      assert t == eol + b;
      assert t[..|eol|] == eol;
      assert t[|eol|..] == b;
    } else {
      assert t[0] == a[0];
      assert !StartsWith(t, eol) by {
        assert t[..|eol|][0] == a[0];
      }
      assert t[1..] == a[1..] + eol + b;
      SplitLineAt(a[1..], b, eol);
      assert [a[0]] + a[1..] == a;
    }
  }

  /**
    Framing round trip: whatever follows the head, a client reading line by line finds
    exactly one status, one `Content-Type` header, the empty line, and then that text.
  */
  lemma ParseHeadRoundTrip(status: string, contentType: string, rest: string, eol: string)
    requires IsLineSeparator(eol) && SingleLine(status) && SingleLine(contentType)
    ensures ParseHead(HeadText(status, contentType, eol) + rest, eol) == Some((status, contentType, rest))
  {
    FixedHeadersSingleLine();
    var l1, l2 := StatusLine(status), HeaderLine(contentType);
    SingleLineConcat(StatusPrefix, status);
    SingleLineConcat(HeaderPrefix, contentType);
    var r2 := eol + rest;
    var r1 := l2 + eol + r2;
    assert HeadText(status, contentType, eol) + rest == l1 + eol + r1;
    SplitLineAt(l1, r1, eol);
    SplitLineAt(l2, r2, eol);
    SplitLineAt([], rest, eol);
    assert [] + eol + rest == r2;
    assert l1[..|StatusPrefix|] == StatusPrefix && l1[|StatusPrefix|..] == status;
    assert l2[..|HeaderPrefix|] == HeaderPrefix && l2[|HeaderPrefix|..] == contentType;
  }

  /** Two single lines put together are one line. */
  lemma SingleLineConcat(a: string, b: string)
    requires SingleLine(a) && SingleLine(b)
    ensures SingleLine(a + b)
  {
    assert forall c :: c in a + b ==> c in a || c in b;
  }

  /** Every status and content type the router produces fits on one line. */
  lemma ResponseHeadersSingleLine(verb: string, path: string, webRoot: string, fs: FileSystem)
    ensures var r := Dispatch(verb, path, webRoot, fs);
      SingleLine(r.status) && SingleLine(r.contentType)
  {
    FixedHeadersSingleLine();
    var p := if path == "/" then IndexPath else path;
    ContentTypeSingleLine(LastSegment(webRoot + p));
  }

  /** The fixed statuses and content types contain no line break. */
  lemma FixedHeadersSingleLine()
    ensures SingleLine(StatusOk) && SingleLine(StatusNotFound)
    ensures SingleLine(JsonType) && SingleLine(HtmlType)
    ensures SingleLine(StatusPrefix) && SingleLine(HeaderPrefix)
  {
    assert SingleLine(StatusPrefix);
    assert SingleLine(HeaderPrefix);
    assert SingleLine(StatusOk);
    assert SingleLine(StatusNotFound);
    assert SingleLine(JsonType);
    assert SingleLine(HtmlType);
  }

  /** No content type of the table, nor the fallback, contains a line break. */
  lemma ContentTypeSingleLine(name: string)
    ensures SingleLine(GetContentType(name))
  {
    assert SingleLine("text/html");
    assert SingleLine("text/css");
    assert SingleLine("application/javascript");
    assert SingleLine("image/png");
    assert SingleLine("image/jpeg");
    assert SingleLine(DefaultType);
  }

  /**
    The head of every response the router produces reads back as its own status and
    content type, followed by whatever comes after it.
  */
  lemma ResponseHeadRoundTrip(verb: string, path: string, webRoot: string, fs: FileSystem,
                              rest: string, eol: string)
    requires IsLineSeparator(eol)
    ensures var r := Dispatch(verb, path, webRoot, fs);
      ParseHead(HeadText(r.status, r.contentType, eol) + rest, eol) == Some((r.status, r.contentType, rest))
  {
    var r := Dispatch(verb, path, webRoot, fs);
    ResponseHeadersSingleLine(verb, path, webRoot, fs);
    ParseHeadRoundTrip(r.status, r.contentType, rest, eol);
  }
}
