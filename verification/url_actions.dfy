/** The actions a URL can be bound to (the AbstractUrlAction subclasses), as
    one closed datatype. Each turns the routed request into a response
    record; the file action reads from a filesystem given as a map from file
    name to contents. */
module UrlActions {
  import opened Results
  import opened HttpRequest
  import opened HttpResponse

  datatype Action = Default | Echo | UserAgent | NotFound | File

  /** File name to contents: the part of the filesystem the file action sees. */
  type FileSystem = map<string, string>

  const OK_MESSAGE: string := "OK"
  const NOT_FOUND_MESSAGE: string := "Not Found"
  const TEXT_PLAIN: string := "text/plain"
  const OCTET_STREAM: string := "application/octet-stream"
  const USER_AGENT: string := "User-Agent"

  /** The headers of a response built with the five-argument constructor. */
  const NO_HEADERS: map<string, string> := map[]

  /** unordered_map::at: the value, or the exception thrown for a missing key. */
  function HeaderAt(headers: map<string, string>, key: string): (r: Result<string>)
    ensures r.Success? <==> key in headers
    ensures r.Success? ==> r.value == headers[key]
    ensures r.Failure? ==> r.error == KeyNotFound(key)
  {
    if key in headers then Success(headers[key]) else Failure(KeyNotFound(key))
  }

  /** readDataFromTheFile: the stored contents, or the runtime_error thrown
      when the file does not exist. */
  function ReadFile(fs: FileSystem, filename: string): (r: Result<string>)
    ensures r.Success? <==> filename in fs
    ensures r.Success? ==> r.value == fs[filename]
    ensures r.Failure? ==> r.error == FileDoesNotExist(filename)
  {
    if filename !in fs then Failure(FileDoesNotExist(filename)) else Success(fs[filename])
  }

  /** returnFileResponse: 200 with the file's contents as an octet stream. */
  function FileFound(fs: FileSystem, filename: string): (r: Result<Response>)
    ensures r.Success? <==> filename in fs
  {
    var content :- ReadFile(fs, filename);
    Success(Response(OK_MESSAGE, 200, OCTET_STREAM, |content|, content, NO_HEADERS))
  }

  /** returnFileNotFindResponse: 404 with an empty body. */
  const FILE_NOT_FOUND: Response := Response(NOT_FOUND_MESSAGE, 404, OCTET_STREAM, 0, "", NO_HEADERS)

  /** The name the file action looks up. */
  function FileName(req: Request): (name: string)
    ensures req.directoryName <= name
    ensures |name| == |req.directoryName| + |req.requestParam|
    ensures name[|req.directoryName|..] == req.requestParam
  {
    req.directoryName + req.requestParam
  }

  /** execute() of each action. The only action that can fail is UserAgent,
      whose header lookup throws when the request has no User-Agent. */
  function Execute(action: Action, req: Request, fs: FileSystem): (r: Result<Response>)
    ensures r.Failure? <==> action == UserAgent && USER_AGENT !in req.headers
    ensures r.Failure? ==> r.error == KeyNotFound(USER_AGENT)
  {
    match action
    case Default =>
      Success(Response(OK_MESSAGE, 200, TEXT_PLAIN, 0, "", NO_HEADERS))
    case Echo =>
      Success(Response(OK_MESSAGE, 200, TEXT_PLAIN, |req.requestParam|, req.requestParam, NO_HEADERS))
    case UserAgent =>
      var body :- HeaderAt(req.headers, USER_AGENT);
      Success(Response(OK_MESSAGE, 200, TEXT_PLAIN, |body|, body, req.headers))
    case NotFound =>
      Success(Response(NOT_FOUND_MESSAGE, 404, TEXT_PLAIN, 0, "", req.headers))
    case File =>
      var filename := FileName(req);
      if filename in fs then FileFound(fs, filename) else Success(FILE_NOT_FOUND)
  }

  /* ------------------------------ properties ------------------------------ */

  /** A response whose declared Content-Length is its body's length. */
  predicate Framed(r: Response) {
    r.contentLength == |r.body|
  }

  /** Every response an action builds declares its body's true length. */
  lemma ExecuteFramed(action: Action, req: Request, fs: FileSystem)
    ensures Execute(action, req, fs).Success? ==> Framed(Execute(action, req, fs).value)
  {
  }

  /** Status code and reason phrase always come in one of two pairs. */
  lemma ExecuteStatus(action: Action, req: Request, fs: FileSystem)
    ensures Execute(action, req, fs).Success? ==>
      var r := Execute(action, req, fs).value;
      (r.statusCode == 200 && r.message == OK_MESSAGE) || (r.statusCode == 404 && r.message == NOT_FOUND_MESSAGE)
    ensures Execute(action, req, fs).Success? && Execute(action, req, fs).value.statusCode == 404 ==>
      action == NotFound || (action == File && FileName(req) !in fs)
  {
  }

  /** The default action answers every request with the same empty 200. */
  lemma DefaultConstant(req1: Request, fs1: FileSystem, req2: Request, fs2: FileSystem)
    ensures Execute(Default, req1, fs1) == Execute(Default, req2, fs2)
    ensures Execute(Default, req1, fs1).Success?
    ensures var r := Execute(Default, req1, fs1).value;
      r.statusCode == 200 && r.contentType == TEXT_PLAIN && r.body == "" && r.contentLength == 0
  {
  }

  /** The echo action sends back the route parameter as plain text, and
      nothing else about the request affects it. */
  lemma EchoResponse(req: Request, fs: FileSystem)
    ensures Execute(Echo, req, fs).Success?
    ensures var r := Execute(Echo, req, fs).value;
      && r.statusCode == 200 && r.message == OK_MESSAGE && r.contentType == TEXT_PLAIN
      && r.body == req.requestParam && Framed(r)
      && SupportedEncoding(r.headers) == ""
  {
  }

  lemma EchoDependsOnlyOnParam(req1: Request, fs1: FileSystem, req2: Request, fs2: FileSystem)
    requires req1.requestParam == req2.requestParam
    ensures Execute(Echo, req1, fs1) == Execute(Echo, req2, fs2)
  {
  }

  /** The not-found action is an empty 404 carrying the request's headers,
      so its serialisation negotiates an encoding like any other response. */
  lemma NotFoundResponse(req: Request, fs: FileSystem)
    ensures Execute(NotFound, req, fs).Success?
    ensures var r := Execute(NotFound, req, fs).value;
      && r.statusCode == 404 && r.message == NOT_FOUND_MESSAGE && r.contentType == TEXT_PLAIN
      && r.body == "" && r.contentLength == 0
      && r.headers == req.headers
  {
  }

  lemma NotFoundDependsOnlyOnHeaders(req1: Request, fs1: FileSystem, req2: Request, fs2: FileSystem)
    requires req1.headers == req2.headers
    ensures Execute(NotFound, req1, fs1) == Execute(NotFound, req2, fs2)
  {
  }

  /** The user-agent action answers with the User-Agent header (looked up by
      exact name) and forwards the request's headers; it fails exactly when
      that header is missing. */
  lemma UserAgentResponse(req: Request, fs: FileSystem)
    ensures Execute(UserAgent, req, fs).Success? <==> USER_AGENT in req.headers
    ensures Execute(UserAgent, req, fs).Success? ==>
      var r := Execute(UserAgent, req, fs).value;
      && r.statusCode == 200 && r.message == OK_MESSAGE && r.contentType == TEXT_PLAIN
      && r.body == req.headers[USER_AGENT] && Framed(r)
      && r.headers == req.headers
  {
  }

  /** The file action serves the contents stored under directory + param as
      an octet stream, and an empty 404 when there is no such file. */
  lemma FileResponse(req: Request, fs: FileSystem)
    ensures Execute(File, req, fs).Success?
    ensures var r := Execute(File, req, fs).value;
      && r.contentType == OCTET_STREAM
      && r.headers == NO_HEADERS
      && (req.directoryName + req.requestParam in fs ==>
            r.statusCode == 200 && r.body == fs[req.directoryName + req.requestParam] && Framed(r))
      && (req.directoryName + req.requestParam !in fs ==>
            r.statusCode == 404 && r.message == NOT_FOUND_MESSAGE && r.body == "" && r.contentLength == 0)
  {
  }

  /** Method, body and headers play no part in the file action: a POST is
      served like a GET and nothing is written. */
  lemma FileIgnoresMethodAndBody(req1: Request, req2: Request, fs: FileSystem)
    requires req1.directoryName + req1.requestParam == req2.directoryName + req2.requestParam
    ensures Execute(File, req1, fs) == Execute(File, req2, fs)
  {
  }
}
