/**
  The request-to-response decision of `handle_connection` in src/main.rs,
  without its I/O: the lines read from the socket are a sequence of
  strings, `Path::exists` is the predicate `pathExists` and `fs::read_to_string`
  is the function `read` from a path to the file's bytes.
 */
module Server {
  import opened Wrappers
  import opened Text
  import Http

  const RootRequest: string := "GET / HTTP/1.1"
  const SleepRequest: string := "GET /sleep HTTP/1.1"
  const OkStatus: string := "HTTP/1.1 200 OK"
  const NotFoundStatus: string := "HTTP/1.1 404 NOT FOUND"
  const IndexPath: string := "html/index.html"
  const NotFoundPath: string := "html/404.html"
  const ContentType: string := "Content-Type: text/html; charset=utf-8"

  /** The ways handling a request panics. */
  datatype Panic =
    | MissingHeaderLine     // fewer than two lines before the empty line
    | MissingRequestTarget  // no space in the request line

  /** A status line and the file whose contents become the body. */
  datatype Selection = Selection(statusLine: string, filePath: string)

  const IndexPage := Selection(OkStatus, IndexPath)
  const NotFoundPage := Selection(NotFoundStatus, NotFoundPath)

  /** `lines().take_while(|line| !line.is_empty()).collect()`: the lines
      before the first empty one. */
  function CollectHeaders(lines: seq<string>): (r: seq<string>)
    ensures |r| <= |lines| && r == lines[..|r|]
    ensures forall i :: 0 <= i < |r| ==> r[i] != ""
    ensures |r| < |lines| ==> lines[|r|] == ""
  {
    if lines == [] || lines[0] == "" then []
    else [lines[0]] + CollectHeaders(lines[1..])
  }

  /** The collected lines are the only prefix of non-empty lines that is
      followed by an empty line or by the end of the input. */
  lemma {:induction false} CollectHeadersUnique(lines: seq<string>, p: seq<string>)
    requires |p| <= |lines| && p == lines[..|p|]
    requires forall i :: 0 <= i < |p| ==> p[i] != ""
    requires |p| < |lines| ==> lines[|p|] == ""
    ensures p == CollectHeaders(lines)
  {
    if p != [] {
      assert lines[0] == p[0] != "";
      assert p[1..] == lines[1..][..|p| - 1];
      CollectHeadersUnique(lines[1..], p[1..]);
      assert p == [p[0]] + p[1..];
    }
  }

  /** The status line and file chosen for a request line. It panics, as
      `request_tokens[1]` does, when the line holds no space. */
  function Route(requestLine: string, pathExists: string -> bool): (r: Result<Selection, Panic>)
    ensures r.Err? <==> ' ' !in requestLine
    ensures r.Err? ==> r.error == MissingRequestTarget
  {
    var tokens := Split(requestLine, ' ');
    if |tokens| < 2 then Err(MissingRequestTarget)
    else if requestLine == RootRequest || requestLine == SleepRequest then Ok(IndexPage)
    else if tokens[0] == "GET" && pathExists("html" + tokens[1]) then Ok(Selection(OkStatus, "html" + tokens[1]))
    else Ok(NotFoundPage)
  }

  /** Route selection as the handler performs it: the 404 defaults are
      overwritten when the requested file exists. */
  method SelectRoute(requestLine: string, pathExists: string -> bool) returns (r: Result<Selection, Panic>)
    ensures r == Route(requestLine, pathExists)
  {
    var requestTokens := Split(requestLine, ' ');
    if |requestTokens| < 2 {
      return Err(MissingRequestTarget);
    }
    var requestMethod := requestTokens[0];
    var requestedFile := "html" + requestTokens[1];
    var filePath := NotFoundPath;
    var statusCode := NotFoundStatus;
    if requestLine == RootRequest {
      r := Ok(Selection(OkStatus, IndexPath));
    } else if requestLine == SleepRequest {
      r := Ok(Selection(OkStatus, IndexPath));
    } else {
      if requestMethod == "GET" {
        var fileExists := pathExists(requestedFile);
        if fileExists {
          statusCode := OkStatus;
          filePath := requestedFile;
        }
      }
      r := Ok(Selection(statusCode, filePath));
    }
  }

  /** The two fixed request lines give the index page whichever files
      exist. */
  lemma RouteFixed(requestLine: string, pathExists: string -> bool)
    requires requestLine == RootRequest || requestLine == SleepRequest
    ensures Route(requestLine, pathExists) == Ok(IndexPage)
  {
  }

  /** A request line whose method is not `GET` gets the 404 page. */
  lemma RouteOtherMethod(requestMethod: string, rest: string, pathExists: string -> bool)
    requires ' ' !in requestMethod && requestMethod != "GET"
    ensures Route(requestMethod + " " + rest, pathExists) == Ok(NotFoundPage)
  {
    var line := requestMethod + " " + rest;
    SplitPrefix(requestMethod, ' ', rest);
    FixedRequestMethod(requestMethod, rest);
  }

  /** Only the method `GET` followed by a space can begin either fixed
      request line. */
  lemma FixedRequestMethod(requestMethod: string, rest: string)
    requires ' ' !in requestMethod
    ensures requestMethod + " " + rest == RootRequest || requestMethod + " " + rest == SleepRequest
        ==> requestMethod == "GET"
  {
    var line := requestMethod + " " + rest;
    if line == RootRequest || line == SleepRequest {
      assert line[|requestMethod|] == ' ';
      assert line[0] == 'G' && line[1] == 'E' && line[2] == 'T' && line[3] == ' ';
      assert requestMethod == line[..3];
    }
  }

  /** A `GET` request line other than the fixed two names its target as the
      text between the first and the second space (or the end of the line);
      the file `"html" + target` is served when it exists, the 404 page
      otherwise. Nothing confines the target to the `html` directory. */
  lemma RouteGetTarget(target: string, tail: string, pathExists: string -> bool)
    requires ' ' !in target
    requires tail == "" || tail[0] == ' '
    requires "GET " + target + tail != RootRequest && "GET " + target + tail != SleepRequest
    ensures Route("GET " + target + tail, pathExists)
         == Ok(if pathExists("html" + target) then Selection(OkStatus, "html" + target) else NotFoundPage)
  {
    assert "GET " + target + tail == "GET" + [' '] + target + tail;
    SplitFirstTwo("GET", ' ', target, tail);
  }

  /** Two spaces after `GET` make the target empty: the file looked up is
      `html` itself. */
  lemma RouteDoubleSpace(rest: string, pathExists: string -> bool)
    ensures Route("GET  " + rest, pathExists)
         == Ok(if pathExists("html") then Selection(OkStatus, "html") else NotFoundPage)
  {
    assert "GET  " + rest == "GET " + "" + (" " + rest);
    assert ("GET  " + rest)[4] == ' ' != RootRequest[4];
    assert SleepRequest[4] == '/';
    RouteGetTarget("", " " + rest, pathExists);
    assert "html" + "" == "html";
  }

  /** Every selection is the index page, an existing requested file, or the
      404 page. */
  lemma RouteShapes(requestLine: string, pathExists: string -> bool)
    requires ' ' in requestLine
    ensures var s := Route(requestLine, pathExists).value;
      || s == IndexPage
      || (s.statusLine == OkStatus && s.filePath == "html" + Split(requestLine, ' ')[1] && pathExists(s.filePath))
      || s == NotFoundPage
    ensures Route(requestLine, pathExists).value.statusLine == OkStatus
        ==> requestLine == RootRequest || requestLine == SleepRequest || pathExists(Route(requestLine, pathExists).value.filePath)
  {
  }

  /** The whole response: status line, the `Content-Type` field, the
      `Content-Length` field, the empty line and the body, which is sent
      unchanged at the end. */
  function FormatResponse(statusLine: string, contents: seq<byte>): (r: seq<byte>)
    ensures |r| > |contents| && r[|r| - |contents|..] == contents
  {
    var head := statusLine + "\r\n" + ContentType + "\r\n" + "Content-Length: " + Decimal(|contents|) + "\r\n\r\n";
    Encode(head) + contents
  }

  /** The response is the HTTP message with the status line as its start
      line, the two header fields and the contents as its body. */
  lemma FormatResponseMessage(statusLine: string, contents: seq<byte>)
    ensures FormatResponse(statusLine, contents) == Http.Serialize(Http.Message(
      Encode(statusLine),
      [Encode(ContentType), Encode("Content-Length: ") + Encode(Decimal(|contents|))],
      contents))
  {
    FormatHead(statusLine, Decimal(|contents|));
  }

  /** The response head in bytes: the encoded status line, CRLF, the two
      field lines each ended by CRLF, and the CRLF of the empty line. */
  lemma FormatHead(statusLine: string, length: string)
    ensures Encode(statusLine + "\r\n" + ContentType + "\r\n" + "Content-Length: " + length + "\r\n\r\n")
         == Encode(statusLine) + Http.CRLF + Http.Lines([Encode(ContentType), Encode("Content-Length: ") + Encode(length)]) + Http.CRLF
  {
    HeadPieces(statusLine, length);
    HeadLines(Encode(statusLine), Encode(ContentType), Encode("Content-Length: ") + Encode(length));
  }

  lemma HeadPieces(statusLine: string, length: string)
    ensures Encode(statusLine + "\r\n" + ContentType + "\r\n" + "Content-Length: " + length + "\r\n\r\n")
         == Encode(statusLine) + Http.CRLF + Encode(ContentType) + Http.CRLF
            + (Encode("Content-Length: ") + Encode(length)) + (Http.CRLF + Http.CRLF)
  {
    assert "\r\n\r\n" == "\r\n" + "\r\n";
    assert Encode("\r\n") == Http.CRLF;
    EncodePieces(statusLine, "\r\n", ContentType, "Content-Length: ", length);
  }

  lemma HeadLines(es: seq<byte>, et: seq<byte>, pn: seq<byte>)
    ensures es + Http.CRLF + Http.Lines([et, pn]) + Http.CRLF
         == es + Http.CRLF + et + Http.CRLF + pn + (Http.CRLF + Http.CRLF)
  {
    Http.LinesPair(et, pn);
  }

  lemma EncodePieces(s: string, c: string, t: string, p: string, n: string)
    ensures Encode(s + c + t + c + p + n + (c + c))
         == Encode(s) + Encode(c) + Encode(t) + Encode(c) + (Encode(p) + Encode(n)) + (Encode(c) + Encode(c))
  {
    var x3 := s + c + t + c;
    var x5 := x3 + p + n;
    var es, ec, et, ep, en := Encode(s), Encode(c), Encode(t), Encode(p), Encode(n);
    assert Encode(x3) == es + ec + et + ec by {
      EncodeConcat(s, c);
      EncodeConcat3(s + c, t, c);
      RegroupFour(es, ec, et, ec);
    }
    assert Encode(x5) == Encode(x3) + (ep + en) by {
      EncodeConcat3(x3, p, n);
    }
    assert Encode(x5 + (c + c)) == Encode(x5) + (ec + ec) by {
      EncodeConcat(x5, c + c);
      EncodeConcat(c, c);
    }
  }

  lemma RegroupFour(a: seq<byte>, b: seq<byte>, c: seq<byte>, d: seq<byte>)
    ensures (a + b) + (c + d) == a + b + c + d
  {
  }

  lemma EncodeConcat3(a: string, b: string, c: string)
    ensures Encode(a + b + c) == Encode(a) + (Encode(b) + Encode(c))
  {
    EncodeConcat(a, b);
    EncodeConcat(a + b, c);
  }

  /** The `Content-Type` field line is line text and not empty. */
  lemma ContentTypeIsLine()
    ensures Http.IsFieldLine(Encode(ContentType))
  {
    assert IsLineString(ContentType);
    Http.EncodeLineText(ContentType);
  }

  /** The `Content-Length` field line is line text. */
  lemma ContentLengthIsLine(n: nat)
    ensures Http.IsLineText(Encode("Content-Length: " + Decimal(n)))
  {
    var field := "Content-Length: " + Decimal(n);
    assert IsLineString("Content-Length: ");
    assert IsLineString(Decimal(n));
    LineStringConcat("Content-Length: ", Decimal(n));
    Http.EncodeLineText(field);
  }

  lemma ContentLengthField(n: nat)
    ensures Encode("Content-Length: ") + Encode(Decimal(n)) == Encode("Content-Length: " + Decimal(n))
  {
    EncodeConcat("Content-Length: ", Decimal(n));
  }

  /** The handler's `Content-Length` field line, as the encoded name
      followed by the encoded length, is line text and not empty. */
  lemma ContentLengthWellFormed(n: nat)
    ensures Http.IsFieldLine(Encode("Content-Length: ") + Encode(Decimal(n)))
  {
    ContentLengthIsLine(n);
    ContentLengthField(n);
    assert |Encode(Decimal(n))| >= 1;
  }

  /** The `Content-Type` field line is not a `Content-Length` line. */
  lemma ContentTypeIsNotLength()
    ensures !Http.StartsWith(Encode(ContentType), Encode("Content-Length: "))
  {
    EncodeDiffers(ContentType, "Content-Length: ", 8);
  }

  /** Two strings that agree on ASCII up to a differing index encode to
      bytes neither of which begins with the other. */
  lemma EncodeDiffers(s: string, t: string, i: nat)
    requires i < |s| && i < |t| && s[i] != t[i]
    requires forall j :: 0 <= j <= i ==> (s[j] as int) < 0x80 && (t[j] as int) < 0x80
    ensures !Http.StartsWith(Encode(s), Encode(t))
  {
    EncodeAsciiAt(s, i);
    EncodeAsciiAt(t, i);
    var f, p := Encode(s), Encode(t);
    if |f| >= |p| {
      assert f[..|p|][i] == f[i];
    }
  }

  /** Only the second field line is a `Content-Length` line, and it carries
      the number written in it. */
  lemma ResponseContentLength(n: nat)
    ensures Http.ContentLength([Encode(ContentType), Encode("Content-Length: ") + Encode(Decimal(n))]) == Some(n)
  {
    ContentTypeIsNotLength();
    Http.ParseDecimalOfDecimal(n);
    Http.FieldValueSecond(Encode(ContentType), Encode("Content-Length: "), Encode(Decimal(n)));
  }

  /** A response read back as an HTTP/1.1 message has the status line as
      its start-line, the file contents as its body, and a
      `Content-Length` equal to the body's length in bytes. */
  lemma ResponseFraming(statusLine: string, contents: seq<byte>)
    requires IsLineString(statusLine)
    ensures var m := Http.Parse(FormatResponse(statusLine, contents));
      && m.Some?
      && m.value.startLine == Encode(statusLine)
      && m.value.body == contents
      && Http.ContentLength(m.value.fields) == Some(|contents|)
  {
    Http.EncodeLineText(statusLine);
    ContentTypeIsLine();
    ContentLengthWellFormed(|contents|);
    Http.FramingPair(Encode(statusLine), Encode(ContentType),
      Encode("Content-Length: ") + Encode(Decimal(|contents|)), contents);
    ResponseContentLength(|contents|);
    FormatResponseMessage(statusLine, contents);
  }

  /** A reader that stops at the first CRLF CRLF of the response finds the
      file contents after it. */
  lemma ResponseBodyAfterHead(statusLine: string, contents: seq<byte>)
    requires IsLineString(statusLine)
    ensures Http.BodyAfterHead(FormatResponse(statusLine, contents)) == Some(contents)
  {
    Http.EncodeLineText(statusLine);
    ContentTypeIsLine();
    ContentLengthWellFormed(|contents|);
    Http.FramingPair(Encode(statusLine), Encode(ContentType),
      Encode("Content-Length: ") + Encode(Decimal(|contents|)), contents);
    FormatResponseMessage(statusLine, contents);
  }

  /** Both status lines the router chooses are single lines. */
  lemma StatusLinesAreLines()
    ensures IsLineString(OkStatus) && IsLineString(NotFoundStatus)
  {
  }

  /** Whatever the request, the status line chosen holds no line break. */
  lemma RouteStatusIsLine(requestLine: string, pathExists: string -> bool)
    requires ' ' in requestLine
    ensures var status := Route(requestLine, pathExists).value.statusLine;
      IsLineString(status)
  {
    RouteShapes(requestLine, pathExists);
    StatusLinesAreLines();
  }

  /** `handle_connection` from the lines read to the bytes written: the
      request is the lines before the first empty one, the route comes from
      its first line, and the response carries the chosen file. It panics
      when fewer than two lines precede the empty line or when the request
      line holds no space. */
  function Handle(input: seq<string>, pathExists: string -> bool, read: string -> seq<byte>)
    : (r: Result<seq<byte>, Panic>)
    ensures r.Err? <==> |CollectHeaders(input)| < 2 || ' ' !in CollectHeaders(input)[0]
    ensures r.Err? ==> r.error == if |CollectHeaders(input)| < 2 then MissingHeaderLine else MissingRequestTarget
  {
    var headers := CollectHeaders(input);
    if |headers| < 2 then Err(MissingHeaderLine)
    else match Route(headers[0], pathExists)
      case Err(e) => Err(e)
      case Ok(s) => Ok(FormatResponse(s.statusLine, read(s.filePath)))
  }

  /** A response that is written parses as one HTTP message whose start
      line is the selected status line, whose body is the selected file and
      whose `Content-Length` is that file's length; a reader that stops at
      the first CRLF CRLF finds that file after it. */
  lemma HandleResponse(input: seq<string>, pathExists: string -> bool, read: string -> seq<byte>)
    requires Handle(input, pathExists, read).Ok?
    ensures var s := Route(CollectHeaders(input)[0], pathExists).value;
      var m := Http.Parse(Handle(input, pathExists, read).value);
      && m.Some?
      && m.value.startLine == Encode(s.statusLine)
      && m.value.body == read(s.filePath)
      && Http.ContentLength(m.value.fields) == Some(|m.value.body|)
    ensures var s := Route(CollectHeaders(input)[0], pathExists).value;
      Http.BodyAfterHead(Handle(input, pathExists, read).value) == Some(read(s.filePath))
  {
    var s := Route(CollectHeaders(input)[0], pathExists).value;
    RouteStatusIsLine(CollectHeaders(input)[0], pathExists);
    ResponseFraming(s.statusLine, read(s.filePath));
    ResponseBodyAfterHead(s.statusLine, read(s.filePath));
  }

  /** The handler as written, with the request collected, the route
      selected and the response formatted in turn. */
  method HandleConnection(input: seq<string>, pathExists: string -> bool, read: string -> seq<byte>)
    returns (r: Result<seq<byte>, Panic>)
    ensures r == Handle(input, pathExists, read)
  {
    var httpRequest := CollectHeaders(input);
    if |httpRequest| < 2 {
      return Err(MissingHeaderLine);
    }
    var route := SelectRoute(httpRequest[0], pathExists);
    match route
    case Err(e) =>
      r := Err(e);
    case Ok(selection) =>
      var contents := read(selection.filePath);
      r := Ok(FormatResponse(selection.statusLine, contents));
  }
}
