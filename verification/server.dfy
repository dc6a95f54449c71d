/** One exchange, parse then route: the text
    received is parsed into a request, the request is routed to an action,
    and the action's response is serialised. The properties here follow a
    request written by a client all the way to what the client reads back. */
module Server {
  import opened Results
  import opened CppString
  import opened Decimal
  import opened HttpRequest
  import opened RequestParser
  import opened HttpResponse
  import opened ResponseReader
  import opened UrlActions
  import opened UrlHandler

  /** parseRequest followed by sendResponseForUrl. */
  function Serve(registry: Registry, order: seq<string>, text: string,
                 directoryName: string, fs: FileSystem): (r: Result<string>)
    requires Fits(text) && IsOrder(registry, order)
    ensures r.Failure? ==> r.error.SubstrOutOfRange? || r.error == KeyNotFound(USER_AGENT)
    ensures r.Failure? && r.error.SubstrOutOfRange? ==> Parse(text).Failure?
    ensures |text| == 0 ==> r == SendResponseForUrl(registry, order, EMPTY_REQUEST, directoryName, fs)
  {
    var req :- Parse(text);
    SendResponseForUrl(registry, order, req, directoryName, fs)
  }

  /** The routes the server binds: the root, echo, user-agent and files. */
  const ROUTES: Registry := map["" := Default, "echo" := Echo, "user-agent" := UserAgent, "files" := File]

  /* ------------------------- whole-exchange properties ------------------------- */

  /** The reason phrases and content types the actions use are single lines. */
  lemma ConstantsReadable()
    ensures OneLine(OK_MESSAGE) && OneLine(NOT_FOUND_MESSAGE)
    ensures OneLine(TEXT_PLAIN) && OneLine(OCTET_STREAM)
  {
    assert forall j | 0 <= j < |OK_MESSAGE| :: OK_MESSAGE[j] in {'O', 'K'};
    assert forall j | 0 <= j < |NOT_FOUND_MESSAGE| :: NOT_FOUND_MESSAGE[j] == ' ' || 'A' <= NOT_FOUND_MESSAGE[j] <= 'z';
    assert forall j | 0 <= j < |TEXT_PLAIN| :: TEXT_PLAIN[j] == '/' || 'a' <= TEXT_PLAIN[j] <= 'z';
    assert forall j | 0 <= j < |OCTET_STREAM| :: OCTET_STREAM[j] in {'/', '-'} || 'a' <= OCTET_STREAM[j] <= 'z';
  }

  /** Every response an action builds has a one-line reason phrase and
      content type, so a client can take it apart again. */
  lemma ExecuteReadable(action: Action, req: Request, fs: FileSystem)
    ensures Execute(action, req, fs).Success? ==> Readable(Execute(action, req, fs).value)
  {
    ConstantsReadable();
  }

  lemma SuffixOneLine(prefix: string, p: string)
    requires OneLine(prefix + p)
    ensures OneLine(p)
  {
    assert forall j | 0 <= j < |p| :: p[j] == (prefix + p)[|prefix| + j];
  }

  /** Whatever the routes, the request and the files, a response the server
      sends is readable and declares exactly the length of the body the
      client finds after the blank line. */
  lemma ServeFramed(registry: Registry, order: seq<string>, text: string,
                    directoryName: string, fs: FileSystem)
    requires Fits(text) && IsOrder(registry, order)
    ensures Serve(registry, order, text, directoryName, fs).Success? ==>
      var out := Serve(registry, order, text, directoryName, fs).value;
      && Read(out).Some?
      && DeclaredLength(Read(out).value) == Some(|Read(out).value.body|)
  {
    var parsed := Parse(text);
    if parsed.Success? {
      var req := parsed.value;
      var routed := RouteResponse(registry, order, req, directoryName, fs);
      if routed.Success? {
        RouteFramed(registry, order, req, directoryName, fs);
        DeclaredLengthSerialize(routed.value);
      }
    }
  }

  /** The response chosen by the router comes from one of the actions, so it
      is readable and framed. */
  lemma RouteFramed(registry: Registry, order: seq<string>, req: Request,
                    directoryName: string, fs: FileSystem)
    requires IsOrder(registry, order)
    ensures RouteResponse(registry, order, req, directoryName, fs).Success? ==>
      var r := RouteResponse(registry, order, req, directoryName, fs).value;
      Readable(r) && Framed(r)
  {
    var urlPath := Normalize(req.path);
    match FirstMatch(order, urlPath)
    case Some(key) =>
      var routed := RoutedRequest(req, key, urlPath, directoryName);
      ExecuteReadable(registry[key], routed, fs);
      ExecuteFramed(registry[key], routed, fs);
    case None =>
      ExecuteReadable(NotFound, req, fs);
      ExecuteFramed(NotFound, req, fs);
  }

  /** Every answer the server sends reads back as 200 OK or 404 Not Found. */
  lemma ServeStatus(registry: Registry, order: seq<string>, text: string,
                    directoryName: string, fs: FileSystem)
    requires Fits(text) && IsOrder(registry, order)
    ensures Serve(registry, order, text, directoryName, fs).Success? ==>
      var out := Serve(registry, order, text, directoryName, fs).value;
      && Read(out).Some?
      && var m := Read(out).value;
         m.version == HTTP_VERSION
         && ((m.statusCode == 200 && m.reason == OK_MESSAGE)
             || (m.statusCode == 404 && m.reason == NOT_FOUND_MESSAGE))
  {
    var parsed := Parse(text);
    if parsed.Success? {
      var req := parsed.value;
      var routed := RouteResponse(registry, order, req, directoryName, fs);
      if routed.Success? {
        RouteStatus(registry, order, req, directoryName, fs);
        RouteFramed(registry, order, req, directoryName, fs);
        ReadSerialize(routed.value);
      }
    }
  }

  lemma RouteStatus(registry: Registry, order: seq<string>, req: Request,
                    directoryName: string, fs: FileSystem)
    requires IsOrder(registry, order)
    ensures RouteResponse(registry, order, req, directoryName, fs).Success? ==>
      var r := RouteResponse(registry, order, req, directoryName, fs).value;
      (r.statusCode == 200 && r.message == OK_MESSAGE) || (r.statusCode == 404 && r.message == NOT_FOUND_MESSAGE)
  {
    var urlPath := Normalize(req.path);
    match FirstMatch(order, urlPath)
    case Some(key) =>
      ExecuteStatus(registry[key], RoutedRequest(req, key, urlPath, directoryName), fs);
    case None =>
      ExecuteStatus(NotFound, req, fs);
  }

  /** A request written in the expected wire format is served as the request
      it was written from. */
  lemma ServeRendered(registry: Registry, order: seq<string>,
                      httpMethod: string, target: string, version: string,
                      fields: seq<Field>, body: string, directoryName: string, fs: FileSystem)
    requires IsOrder(registry, order)
    requires WellFormedRequest(httpMethod, target, version, fields, body)
    requires Fits(RenderRequest(httpMethod, target, version, fields, body))
    ensures Serve(registry, order, RenderRequest(httpMethod, target, version, fields, body), directoryName, fs)
         == SendResponseForUrl(registry, order, Request(httpMethod, target, "", Collect(fields), "", body), directoryName, fs)
  {
    ParseRendered(httpMethod, target, version, fields, body);
  }

  /* ------------------------------ the bound routes ------------------------------ */

  /** No key of the bound routes contains a slash. */
  lemma RoutesSlashFree(k: string)
    requires k in ROUTES
    ensures '/' !in k
  {
    assert k == "" || k == "echo" || k == "user-agent" || k == "files";
    assert forall j | 0 <= j < |k| :: k[j] == '-' || 'a' <= k[j] <= 'z';
  }

  /** With the bound routes at most one key matches any path, so the
      unspecified iteration order of the map never shows in an answer. */
  lemma RoutesOrderIrrelevant(order1: seq<string>, order2: seq<string>,
                              req: Request, directoryName: string, fs: FileSystem)
    requires IsOrder(ROUTES, order1) && IsOrder(ROUTES, order2)
    ensures SendResponseForUrl(ROUTES, order1, req, directoryName, fs)
         == SendResponseForUrl(ROUTES, order2, req, directoryName, fs)
  {
    var u := Normalize(req.path);
    forall k1, k2 | k1 in ROUTES && k2 in ROUTES && Matches(k1, u) && Matches(k2, u)
      ensures k1 == k2
    {
      RoutesSlashFree(k1);
      RoutesSlashFree(k2);
      SlashFreeMatchUnique(k1, k2, u);
    }
    OrderIrrelevant(ROUTES, order1, order2, req, directoryName, fs);
  }

  /** The route a path takes: the one key matching `key/` at its start. */
  lemma RouteTo(order: seq<string>, req: Request, directoryName: string, fs: FileSystem, key: string)
    requires IsOrder(ROUTES, order)
    requires key in ROUTES && Matches(key, Normalize(req.path))
    ensures RouteResponse(ROUTES, order, req, directoryName, fs)
         == Execute(ROUTES[key], RoutedRequest(req, key, Normalize(req.path), directoryName), fs)
  {
    var u := Normalize(req.path);
    forall k | k in ROUTES && Matches(k, u)
      ensures k == key
    {
      RoutesSlashFree(k);
      RoutesSlashFree(key);
      SlashFreeMatchUnique(k, key, u);
    }
    var first := FirstMatch(order, u);
    assert key in order;
    assert first.Some? && first.value in ROUTES;
  }

  /** A path that normalises as `<key>/<p>` does, for a bound key, is
      answered by that key's action run with parameter `p` and the directory. */
  lemma RouteWithParam(order: seq<string>, req: Request, key: string, p: string, directoryName: string, fs: FileSystem)
    requires IsOrder(ROUTES, order) && key in ROUTES
    requires Normalize(req.path) == Normalize(key + "/" + p) && OneLine(p) && !EndsInSlash(p)
    ensures RouteResponse(ROUTES, order, req, directoryName, fs)
         == Execute(ROUTES[key], req.(requestParam := p, directoryName := directoryName), fs)
  {
    ParamRoundTrip(key, p);
    RouteTo(order, req, directoryName, fs, key);
  }

  /** A path `echo/<p>` is answered by the echo action with parameter `p`. */
  lemma EchoRoute(order: seq<string>, req: Request, p: string, directoryName: string, fs: FileSystem)
    requires IsOrder(ROUTES, order)
    requires req.path == "echo/" + p && OneLine(p) && !EndsInSlash(p)
    ensures RouteResponse(ROUTES, order, req, directoryName, fs)
         == Success(Response(OK_MESSAGE, 200, TEXT_PLAIN, |p|, p, NO_HEADERS))
  {
    assert "echo" + "/" + p == req.path;
    assert ROUTES["echo"] == Echo;
    RouteWithParam(order, req, "echo", p, directoryName, fs);
  }

  /** GET /echo/<p>: the client reads back a 200 whose body is exactly `p`,
      with no Content-Encoding, whatever the headers say. */
  lemma EchoEndToEnd(order: seq<string>, httpMethod: string, p: string, version: string,
                     fields: seq<Field>, body: string, directoryName: string, fs: FileSystem)
    requires IsOrder(ROUTES, order)
    requires WellFormedRequest(httpMethod, "echo/" + p, version, fields, body) && !EndsInSlash(p)
    requires Fits(RenderRequest(httpMethod, "echo/" + p, version, fields, body))
    ensures var response := Response(OK_MESSAGE, 200, TEXT_PLAIN, |p|, p, NO_HEADERS);
      && Serve(ROUTES, order, RenderRequest(httpMethod, "echo/" + p, version, fields, body), directoryName, fs)
         == Success(Serialize(response))
      && Read(Serialize(response))
         == Some(Message(HTTP_VERSION, 200, OK_MESSAGE,
                         [HeaderField(CONTENT_TYPE, TEXT_PLAIN), HeaderField(CONTENT_LENGTH, NatToDecimal(|p|))], p))
  {
    var target := "echo/" + p;
    var req := Request(httpMethod, target, "", Collect(fields), "", body);
    ServeRendered(ROUTES, order, httpMethod, target, version, fields, body, directoryName, fs);
    SuffixOneLine("echo/", p);
    EchoRoute(order, req, p, directoryName, fs);
    ConstantsReadable();
    PlainRead(Response(OK_MESSAGE, 200, TEXT_PLAIN, |p|, p, NO_HEADERS));
  }

  /** What a client reads from a readable response without request headers. */
  lemma PlainRead(r: Response)
    requires Readable(r) && r.headers == NO_HEADERS
    ensures Read(Serialize(r))
         == Some(Message(HTTP_VERSION, r.statusCode, r.message,
                         [HeaderField(CONTENT_TYPE, r.contentType), HeaderField(CONTENT_LENGTH, NatToDecimal(r.contentLength))],
                         r.body))
  {
    ReadSerialize(r);
    PlainFields(r);
  }

  /** A response without request headers carries only Content-Type and
      Content-Length. */
  lemma PlainFields(r: Response)
    requires r.headers == NO_HEADERS
    ensures ResponseFields(r)
         == [HeaderField(CONTENT_TYPE, r.contentType), HeaderField(CONTENT_LENGTH, NatToDecimal(r.contentLength))]
  {
    assert SupportedEncoding(r.headers) == "";
  }

  /** GET /: the root route answers every request with the same empty 200,
      which a client reads back with Content-Length 0. */
  lemma DefaultEndToEnd(order: seq<string>, httpMethod: string, version: string,
                        fields: seq<Field>, body: string, directoryName: string, fs: FileSystem)
    requires IsOrder(ROUTES, order)
    requires WellFormedRequest(httpMethod, "", version, fields, body)
    requires Fits(RenderRequest(httpMethod, "", version, fields, body))
    ensures var response := Response(OK_MESSAGE, 200, TEXT_PLAIN, 0, "", NO_HEADERS);
      && Serve(ROUTES, order, RenderRequest(httpMethod, "", version, fields, body), directoryName, fs)
         == Success(Serialize(response))
      && Read(Serialize(response))
         == Some(Message(HTTP_VERSION, 200, OK_MESSAGE,
                         [HeaderField(CONTENT_TYPE, TEXT_PLAIN), HeaderField(CONTENT_LENGTH, NatToDecimal(0))], ""))
  {
    var req := Request(httpMethod, "", "", Collect(fields), "", body);
    ServeRendered(ROUTES, order, httpMethod, "", version, fields, body, directoryName, fs);
    DefaultRoute(order, req, directoryName, fs);
    ConstantsReadable();
    PlainRead(Response(OK_MESSAGE, 200, TEXT_PLAIN, 0, "", NO_HEADERS));
  }

  /** The empty path is answered by the default action. */
  lemma DefaultRoute(order: seq<string>, req: Request, directoryName: string, fs: FileSystem)
    requires IsOrder(ROUTES, order)
    requires req.path == ""
    ensures RouteResponse(ROUTES, order, req, directoryName, fs)
         == Success(Response(OK_MESSAGE, 200, TEXT_PLAIN, 0, "", NO_HEADERS))
  {
    assert Normalize(req.path) == "" + "/";
    assert ROUTES[""] == Default;
    RouteTo(order, req, directoryName, fs, "");
  }

  /** GET /user-agent: the body the client reads is the request's last
      User-Agent line, and without one the server has no answer. */
  lemma UserAgentEndToEnd(order: seq<string>, httpMethod: string, version: string,
                          fields: seq<Field>, body: string, directoryName: string, fs: FileSystem)
    requires IsOrder(ROUTES, order)
    requires WellFormedRequest(httpMethod, "user-agent", version, fields, body)
    requires Fits(RenderRequest(httpMethod, "user-agent", version, fields, body))
    ensures var out := Serve(ROUTES, order, RenderRequest(httpMethod, "user-agent", version, fields, body), directoryName, fs);
      && (out.Failure? <==> forall i | 0 <= i < |fields| :: fields[i].key != USER_AGENT)
      && (out.Failure? ==> out.error == KeyNotFound(USER_AGENT))
      && (forall i | 0 <= i < |fields| && fields[i].key == USER_AGENT && LastWithKey(fields, i) ::
            && out.Success?
            && Read(out.value).Some?
            && Read(out.value).value.statusCode == 200
            && Read(out.value).value.body == fields[i].value)
  {
    var req := Request(httpMethod, "user-agent", "", Collect(fields), "", body);
    ServeRendered(ROUTES, order, httpMethod, "user-agent", version, fields, body, directoryName, fs);
    UserAgentRoute(order, req, directoryName, fs);
    var routed := RouteResponse(ROUTES, order, req, directoryName, fs);
    if routed.Success? {
      RouteFramed(ROUTES, order, req, directoryName, fs);
      ReadSerialize(routed.value);
    }
  }

  /** The path `user-agent` is answered by the user-agent action, which
      fails exactly when the header is missing. */
  lemma UserAgentRoute(order: seq<string>, req: Request, directoryName: string, fs: FileSystem)
    requires IsOrder(ROUTES, order)
    requires req.path == "user-agent"
    ensures RouteResponse(ROUTES, order, req, directoryName, fs).Failure? <==> USER_AGENT !in req.headers
    ensures USER_AGENT in req.headers ==>
      && RouteResponse(ROUTES, order, req, directoryName, fs).Success?
      && RouteResponse(ROUTES, order, req, directoryName, fs).value.statusCode == 200
      && RouteResponse(ROUTES, order, req, directoryName, fs).value.body == req.headers[USER_AGENT]
  {
    assert Normalize(req.path) == Normalize("user-agent" + "/" + "");
    assert ROUTES["user-agent"] == UserAgent;
    RouteWithParam(order, req, "user-agent", "", directoryName, fs);
  }

  /** A path `files/<p>` is answered by the file action looking up
      directory + p. */
  lemma FilesRoute(order: seq<string>, req: Request, p: string, directoryName: string, fs: FileSystem)
    requires IsOrder(ROUTES, order)
    requires req.path == "files/" + p && OneLine(p) && !EndsInSlash(p)
    ensures RouteResponse(ROUTES, order, req, directoryName, fs)
         == Execute(File, req.(requestParam := p, directoryName := directoryName), fs)
  {
    assert "files" + "/" + p == req.path;
    assert ROUTES["files"] == File;
    RouteWithParam(order, req, "files", p, directoryName, fs);
  }

  /** GET /files/<p>: the client reads the stored contents of directory + p
      with a 200, or an empty 404 when there is no such file. */
  lemma FilesEndToEnd(order: seq<string>, httpMethod: string, p: string, version: string,
                      fields: seq<Field>, body: string, directoryName: string, fs: FileSystem)
    requires IsOrder(ROUTES, order)
    requires WellFormedRequest(httpMethod, "files/" + p, version, fields, body) && !EndsInSlash(p)
    requires Fits(RenderRequest(httpMethod, "files/" + p, version, fields, body))
    ensures var out := Serve(ROUTES, order, RenderRequest(httpMethod, "files/" + p, version, fields, body), directoryName, fs);
      && out.Success?
      && Read(out.value).Some?
      && var m := Read(out.value).value;
         && (directoryName + p in fs ==> m.statusCode == 200 && m.body == fs[directoryName + p])
         && (directoryName + p !in fs ==> m.statusCode == 404 && m.body == "")
         && FieldValue(m.fields, CONTENT_TYPE) == Some(OCTET_STREAM)
  {
    var target := "files/" + p;
    var req := Request(httpMethod, target, "", Collect(fields), "", body);
    ServeRendered(ROUTES, order, httpMethod, target, version, fields, body, directoryName, fs);
    SuffixOneLine("files/", p);
    FilesRoute(order, req, p, directoryName, fs);
    var fileReq := req.(requestParam := p, directoryName := directoryName);
    FileResponse(fileReq, fs);
    var response := Execute(File, fileReq, fs).value;
    ExecuteReadable(File, fileReq, fs);
    ReadSerialize(response);
  }

  /** A path none of the routes claims gets an empty 404 whose only
      request-dependent part is the negotiated Content-Encoding. */
  lemma UnroutedEndToEnd(order: seq<string>, httpMethod: string, target: string, version: string,
                         fields: seq<Field>, body: string, directoryName: string, fs: FileSystem)
    requires IsOrder(ROUTES, order)
    requires WellFormedRequest(httpMethod, target, version, fields, body)
    requires Fits(RenderRequest(httpMethod, target, version, fields, body))
    requires forall k | k in ROUTES :: !Matches(k, Normalize(target))
    ensures var out := Serve(ROUTES, order, RenderRequest(httpMethod, target, version, fields, body), directoryName, fs);
      && out.Success?
      && Read(out.value).Some?
      && var m := Read(out.value).value;
         && m.statusCode == 404 && m.body == ""
         && (FieldValue(m.fields, CONTENT_ENCODING).Some? <==>
               ACCEPT_ENCODING in Collect(fields) && "gzip" in Split(Collect(fields)[ACCEPT_ENCODING], ','))
  {
    var req := Request(httpMethod, target, "", Collect(fields), "", body);
    ServeRendered(ROUTES, order, httpMethod, target, version, fields, body, directoryName, fs);
    NoMatchNotFound(ROUTES, order, req, directoryName, fs);
    var response := Response(NOT_FOUND_MESSAGE, 404, TEXT_PLAIN, 0, "", req.headers);
    ExecuteReadable(NotFound, req, fs);
    ReadSerialize(response);
    EncodingSerialize(response);
  }

  /* ------------------------------ worked example ------------------------------ */

  /** An echo request with a User-Agent header, answered byte for byte. */
  lemma EchoExample(order: seq<string>, directoryName: string, fs: FileSystem)
    requires IsOrder(ROUTES, order)
    ensures Serve(ROUTES, order, "GET /echo/abc HTTP/1.1\r\n" + "User-Agent: foo\r\n" + "\r\n", directoryName, fs)
         == Success("HTTP/1.1 200 OK\r\n" + "Content-Type: text/plain\r\n" + "Content-Length: 3\r\n" + "\r\n" + "abc")
  {
    var fields := [Field("User-Agent", "foo")];
    assert "echo/" + "abc" == "echo/abc";
    ExampleWellFormed(fields);
    ExampleText(fields);
    EchoEndToEnd(order, "GET", "abc", "HTTP/1.1", fields, "", directoryName, fs);
    ExampleAnswer();
  }

  /** The request of the example parses to method GET, path echo/abc, the
      one header and an empty body. */
  lemma ParseExample()
    ensures Parse("GET /echo/abc HTTP/1.1\r\n" + "User-Agent: foo\r\n" + "\r\n")
         == Success(Request("GET", "echo/abc", "", map["User-Agent" := "foo"], "", ""))
  {
    var fields := [Field("User-Agent", "foo")];
    ExampleWellFormed(fields);
    ExampleText(fields);
    ParseRendered("GET", "echo/abc", "HTTP/1.1", fields, "");
    assert Collect(fields) == map["User-Agent" := "foo"];
  }

  lemma ExampleAnswer()
    ensures Serialize(Response(OK_MESSAGE, 200, TEXT_PLAIN, 3, "abc", NO_HEADERS))
         == "HTTP/1.1 200 OK\r\n" + "Content-Type: text/plain\r\n" + "Content-Length: 3\r\n" + "\r\n" + "abc"
  {
    ExampleStatusLine();
    ExampleHeaderLines();
  }

  lemma ExampleStatusLine()
    ensures StatusLine(200, OK_MESSAGE) == "HTTP/1.1 200 OK\r\n"
  {
    StatusCode200();
  }

  lemma ExampleHeaderLines()
    ensures HeaderLines(Response(OK_MESSAGE, 200, TEXT_PLAIN, 3, "abc", NO_HEADERS))
         == "Content-Type: text/plain\r\n" + "Content-Length: 3\r\n"
  {
    assert NatToDecimal(3) == "3";
    assert EncodingLine(NO_HEADERS) == "";
  }

  lemma StatusCode200()
    ensures IntToDecimal(200) == "200"
  {
    assert NatToDecimal(2) == "2";
    assert NatToDecimal(20) == "20";
    assert NatToDecimal(200) == "200";
  }

  lemma ExampleWellFormed(fields: seq<Field>)
    requires fields == [Field("User-Agent", "foo")]
    ensures WellFormedRequest("GET", "echo/abc", "HTTP/1.1", fields, "")
    ensures Fits(RenderRequest("GET", "echo/abc", "HTTP/1.1", fields, ""))
  {
    Token("GET");
    assert '/' !in "GET";
    Token("echo/abc");
    Token("HTTP/1.1");
    Token("User-Agent");
    Token("foo");
    assert AllWellFormed(fields);
    ExampleText(fields);
  }

  lemma ExampleText(fields: seq<Field>)
    requires fields == [Field("User-Agent", "foo")]
    ensures RenderRequest("GET", "echo/abc", "HTTP/1.1", fields, "")
         == "GET /echo/abc HTTP/1.1\r\n" + "User-Agent: foo\r\n" + "\r\n"
  {
    assert RequestLine("GET", "echo/abc", "HTTP/1.1") == "GET /echo/abc HTTP/1.1";
    assert RenderFields(fields) == RenderField(fields[0]) + RenderFields([]);
    assert RenderFields(fields) == "User-Agent: foo\r\n";
  }

  /** Letters, digits and `-./` make a single line with no ':' and no space. */
  lemma Token(s: string)
    requires forall j | 0 <= j < |s| :: '-' <= s[j] <= '9' || 'A' <= s[j] <= 'z'
    ensures OneLine(s) && ':' !in s && ' ' !in s
  {
  }
}
