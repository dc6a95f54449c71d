# A verified model of the request → route → action → response pipeline

This project models the core of a small HTTP/1.1 server written in C++. It
models four parts:

- `HttpRequestHandler::parseRequest`/`parseHeaders` cut the received text
  into method, path, a header map and a body.
- `URLHandler` normalises the path and finds the first registered key whose
  regex `^key/(.*)` matches. It hands a copy of the request, carrying the
  captured route parameter and the served directory, to that key's action.
  When no key matches, the not-found action answers.
- The five actions (default, echo, user-agent, not-found and file) build an
  `HttpResponse` record.
- `HttpResponse::sendResponse` serialises the record:
  - the status line;
  - an optional `Content-Encoding`, negotiated from `Accept-Encoding` with
    `split`, `trim` and `getSupportedEncodings`;
  - `Content-Type` and `Content-Length`;
  - a blank line;
  - the body.

Everything is a pure function over `string` (`seq<char>`) and immutable
datatypes.

## Modules

| module | file | models |
|---|---|---|
| `Results` | `results.dfy` | `Option`, `Result`, and the exceptions the code can throw |
| `CppString` | `cpp_string.dfy` | `std::string` searches and `substr`, with 64-bit `size_t` arithmetic, npos and wrap-around |
| `Decimal` | `decimal.dfy` | the decimal text `ostream << n` writes, and reading it back |
| `HttpRequest` | `http_request.dfy` | the request record |
| `RequestParser` | `request_parser.dfy` | `parseRequest`/`parseHeaders`, plus a renderer for well-formed request text |
| `HttpResponse` | `http_response.dfy` | the response record, `trim`, `split`, `getSupportedEncodings` and `sendResponse` |
| `ResponseReader` | `response_reader.dfy` | a client's reading of the serialised text, defined independently of the serialiser |
| `UrlActions` | `url_actions.dfy` | the five actions as one closed datatype, with the filesystem as a map from file name to contents |
| `UrlHandler` | `url_handler.dfy` | `registerUrl` and `sendResponseForUrl` |
| `Server` | `server.dfy` | one whole exchange: parse, route, serialise, read back |

### How C++ behaviour is represented

**String searches.**
- The character-set searches (`find_first_of("\r\n")`, `find_first_of(": ")`,
  `find_last_of("\r\n")`, `find_first_not_of(" \t\n\r")`) take a `set<char>`.
  Any one character of the set counts; the argument is never searched for as
  a substring.
- Where the source does arithmetic on a search result, that result becomes a
  64-bit `Size`, with npos = 2^64 − 1.
- `SizeAdd` and `SizeSub` wrap modulo 2^64.
- `substr` clamps its length to the end of the string. It throws
  `out_of_range` (`Failure(SubstrOutOfRange)`) when the start position is past
  the end.
- Because of these rules, malformed requests parse exactly as the source
  parses them, wrap-arounds included. One example: a text with no `/` gets
  the whole text as both its method and its path.

**Exceptions.**
- `headers.at("User-Agent")` on a missing key is `Failure(KeyNotFound)`.
- The file reader's `runtime_error` is `Failure(FileDoesNotExist)`.
- The file action checks that the file exists before reading it, so
  `FileDoesNotExist` never reaches `Execute`.
- `Serve` fails only with the parser's `SubstrOutOfRange` or the missing
  `User-Agent`.

**The router's regex.**
- `^key/(.*)` is a literal prefix test on `key + "/"`.
- libstdc++'s ECMAScript `.` does not match CR or LF. So the capture is the
  longest prefix of the rest of the path that contains no line end.
- One trailing `/` is then dropped from the capture.
- `url_map` is an `unordered_map`, whose iteration order the standard leaves
  unspecified. The router therefore takes that order as a parameter `order`:
  every key exactly once.
- `OrderIrrelevant` proves that the order never matters when at most one key
  matches. `RoutesOrderIrrelevant` proves that this holds for the four bound
  routes on every path.

**Actions.**
- `AbstractUrlAction::execute` is declared to return `std::string`
  (src/url/abstract_url_action.h:11).
- Every subclass returns an `HttpResponse`, and the router calls
  `.sendResponse()` on it. So `Execute` returns a `Response`.
- The actions that call the six-argument `HttpResponse` constructor with five
  arguments (echo, default, file) get an empty header map (`NO_HEADERS`).

**Routes.**
- `Server.ROUTES` binds `""` to Default, `echo` to Echo, `user-agent` to
  UserAgent and `files` to File: four of the five actions the code defines,
  each under the name of its path. Not-found is bound to no name: it is the
  router's fallback when no key matches (src/url/url_handler.h:70-71). The source registers no URL at all
  (`src/server.cpp` is a stub that answers one fixed line), so this binding
  is a choice of the model.
- `Serve` is `parseRequest` followed by `sendResponseForUrl`. No code in the
  source calls the two in sequence; the composition states what the two
  parts give together.

### Partners

Each operation is tied to an independent definition by an all-inputs lemma.

**Parser.**
- Partner: a renderer (`RenderRequest`).
- `ParseRendered`: every well-formed request text parses back to the method,
  target, header fields (last duplicate wins) and body it was written from.

**Serialiser.**
- Partner: a client-side reader (`ResponseReader.Read`) that finds lines by
  their CRLFs and knows nothing of `sendResponse`.
- `ReadSerialize`: reading the output recovers the status code, the reason
  phrase, the header fields in order and the body.
- `DeclaredLengthSerialize` and `EncodingSerialize` build on it.

**Decimal printing.** Partner: `ParseDecimal`.

**`trim`.**
- `TrimPadded` gives the characterisation: whitespace-padded tight text trims
  back to itself.
- `TrimIdempotent` follows from it.

**`split`.**
- Partner: `Join`.
- `SplitJoin` is the round trip.
- `SplitCount` gives the number of pieces.

**Router.**
- `ParamRoundTrip` and `ParamDecomposition` give both directions between a
  parameter and the path it was extracted from.
- `UniqueMatch` and `NoMatchNotFound` state the router's answer.

**Whole exchange.**
- `ServeFramed`: whatever the routes, the request text and the files, every
  response the server sends declares exactly the length of the body a client
  reads.
- `EchoEndToEnd`, `UserAgentEndToEnd`, `FilesEndToEnd`, `DefaultEndToEnd` and
  `UnroutedEndToEnd` follow a well-formed request through to what the client
  reads.

## Behaviour of the code worth noting

- Header keys are stored exactly as written, with no case folding
  (`src/request/http_request_handler.h:111`). The lookups of `User-Agent`
  (`src/url/user_agent_url_action.h:14`) and `Accept-Encoding`
  (`src/response/http_response.h:87`) are exact-case.
- A negotiated `gzip` only adds a `Content-Encoding: gzip` line; the body is
  written unchanged (`src/response/http_response.h:22-24`, `:34`).
- `Content-Length` prints the stored `content_length`, not the body's length
  (`src/response/http_response.h:28`). Every action happens to store the
  body's length (`ExecuteFramed`).
- The file action ignores the method and the body: a POST reads the file like
  a GET and writes nothing (`src/url/file_url_action.h:20-27`,
  `FileIgnoresMethodAndBody`).
- Only 200 and 404 are ever produced (`ExecuteStatus`). Malformed input either
  parses to something or throws (`Failure`).
- The router takes the first matching key in `unordered_map` iteration order
  (`src/url/url_handler.h:45`), which the standard leaves unspecified, so the
  order is a parameter here.

## Model

| member | source | states |
|---|---|---|
| CppString.Substr | src/request/http_request_handler.h:91-92 | substr throws out_of_range exactly when the start lies past the end; otherwise the result is a prefix of the suffix at the start, at most `count` long and shorter only at the end of the string |
| CppString.SubstrInRange | src/response/http_response.h:82 | substr with the start in range: a prefix of the suffix at the start, at most `count` long, and shorter only when it runs to the end of the text |
| CppString.SizeSub | src/request/http_request_handler.h:58-59 | size_t subtraction: the difference when it is non-negative, otherwise the difference plus 2^64 |
| CppString.SizeAdd | src/request/http_request_handler.h:114 | size_t addition: the sum below 2^64, otherwise the sum minus 2^64 |
| CppString.FindFirst | src/request/http_request_handler.h:99-100 | the first position at or after `pos` holding a character of the set (or, for the not_of form, outside it); no earlier position qualifies, and None means none qualifies at all |
| CppString.FindLastBefore | src/request/http_request_handler.h:84 | the last qualifying position, with no later position qualifying; None means none qualifies |
| CppString.AsSize | src/request/http_request_handler.h:55-56 | a search result as a size_t: npos exactly when nothing was found |
| RequestParser.Parse | src/request/http_request_handler.h:46-65 | zero bytes received gives the default request; the only exception is substr's out_of_range from header scanning; the parameter and directory stay empty; no stored key contains ':' or ' ' |
| RequestParser.MethodOf | src/request/http_request_handler.h:55-58 | the method is the text before the first '/', less the one character in front of it; with no '/', the length is npos - 1 and substr clamps it; with a leading '/', 0 - 1 wraps to npos; either way the method is the whole text |
| RequestParser.PathOf | src/request/http_request_handler.h:55-59 | the path is the text strictly after the first '/' up to the next ' ' or the end: no leading slash, no space; with no '/', it is the whole text |
| RequestParser.BodyOf | src/request/http_request_handler.h:63 | the body is the longest suffix with no CR or LF, preceded by a line end unless it is the whole text |
| RequestParser.ParseHeaders | src/request/http_request_handler.h:77-92 | a text with no line end has no headers; the only failure is out_of_range; no key contains ':' or ' ' |
| RequestParser.ScanHeaders | src/request/http_request_handler.h:95-115 | the header loop keeps every key cut at its delimiter; it stops with nothing more added once no key delimiter or no line end remains |
| RequestParser.ScanLine | src/request/http_request_handler.h:99-104 | a line with no key delimiter or no line end after `pos` ends the loop; with both found, a field is read exactly when the key delimiter is not the last character, and the position strictly advances; otherwise the value's substr throws out_of_range |
| RequestParser.LineAt | src/request/http_request_handler.h:106-114 | the key is the text from `pos` to the delimiter; the value starts two characters later and runs to the line end, or to the end of the text when that length wraps; the next line starts two characters after the line end; the value's substr throws exactly when the delimiter is the last character of the text |
| RequestParser.Collect | src/request/http_request_handler.h:111 | the map holds exactly the keys that were scanned, as written; each key maps to the value of its last occurrence |
| RequestParser.ParseRendered | src/request/http_request_handler.h:46-116 | every well-formed request text parses back to its method, its target without the leading '/', its fields collected last-wins, and its body |
| HttpResponse.Trim | src/response/http_response.h:74-83 | the result is a contiguous piece of the input with only whitespace around it and none at its own ends; it is empty exactly when the input is all whitespace |
| HttpResponse.TrimPadded | src/response/http_response.h:74-83 | trimming tight text padded with whitespace on both sides gives that text back |
| HttpResponse.TrimIdempotent | src/response/http_response.h:74-83 | trimming twice is trimming once |
| HttpResponse.Split | src/response/http_response.h:58-71 | there is always at least one piece, and every piece is trimmed |
| HttpResponse.SplitCount | src/response/http_response.h:58-71 | there is one piece more than there are delimiters |
| HttpResponse.SplitJoin | src/response/http_response.h:58-71 | splitting delimiter-free pieces joined by the delimiter yields each piece trimmed, in order |
| HttpResponse.FirstSupported | src/response/http_response.h:92-96 | the first requested encoding that is supported, with no supported one before it; "" exactly when none is supported |
| HttpResponse.SupportedEncoding | src/response/http_response.h:86-100 | the negotiated encoding is "" or "gzip"; it is "gzip" exactly when an exact-case Accept-Encoding header has a comma-separated, trimmed element equal to "gzip" |
| Decimal.NatToDecimalRoundTrip | src/response/http_response.h:28 | the printed Content-Length reads back as the stored number |
| Decimal.IntToDecimalRoundTrip | src/response/http_response.h:19 | the printed status code, sign included, reads back as the code |
| Decimal.NatToDecimal | src/response/http_response.h:28 | `ostream << n` for a size_t: a non-empty run of digits with no leading zero |
| Decimal.IntToDecimal | src/response/http_response.h:19 | `ostream << n` for an int: a leading '-' exactly when the value is negative, digits after it |
| ResponseReader.ReadSerialize | src/response/http_response.h:15-37 | a client reading the output finds "HTTP/1.1", the status code, the reason, then the optional Content-Encoding, Content-Type and Content-Length fields in that order, and the body verbatim |
| HttpResponse.Serialize | src/response/http_response.h:15-37 | sendResponse's text: status line, the optional Content-Encoding, Content-Type, Content-Length, the blank line, then the body; it carries no contract of its own, and what it promises is stated by ResponseReader.ReadSerialize |
| ResponseReader.DeclaredLengthSerialize | src/response/http_response.h:28 | the Content-Length a client reads is the stored length, not a recomputed one; it equals the body's length when the stored value does |
| ResponseReader.EncodingSerialize | src/response/http_response.h:22-24 | a Content-Encoding field appears exactly when Accept-Encoding lists gzip, and its value is then "gzip" |
| UrlHandler.RegisterUrl | src/url/url_handler.h:27-29 | registering binds the name to the action, replacing an earlier binding, and leaves every other key and its action as they were |
| UrlHandler.Normalize | src/url/url_handler.h:39-42 | the normalised path ends in '/' and extends the input by at most one character; it equals the input exactly when the input already ends in '/' |
| UrlHandler.NormalizeIdempotent | src/url/url_handler.h:39-42 | normalising twice is normalising once |
| UrlHandler.Capture | src/url/url_handler.h:47-51 | `(.*)` captures a prefix with no line end, stopping only at a line end or at the end of the text |
| UrlHandler.Matches | src/url/url_handler.h:47-51 | the pattern `key/(.*)` is searched at the start of the path: a key matches exactly when the path begins with the key followed by '/' |
| UrlHandler.ParamOf | src/url/url_handler.h:56-59 | the parameter is a prefix of the text after `key/` |
| UrlHandler.ParamRoundTrip | src/url/url_handler.h:47-59 | a single-line parameter without a trailing slash, placed after `key/`, makes the key match and is the parameter extracted |
| UrlHandler.ParamDecomposition | src/url/url_handler.h:47-59 | a matched single-line path normalises to `key/` with an empty parameter, or to `key/` + parameter + `/` |
| UrlHandler.FirstMatch | src/url/url_handler.h:45-51 | the key chosen matches and every key before it in iteration order does not; None exactly when no key matches |
| UrlHandler.RoutedRequest | src/url/url_handler.h:53-63 | the action's copy keeps the method, path, headers and body, and gets the parameter and the directory |
| UrlHandler.RouteResponse | src/url/url_handler.h:37-71 | routing fails only with the user-agent action's missing header |
| UrlHandler.SendResponseForUrl | src/url/url_handler.h:37-72 | the serialised answer fails only with the user-agent action's missing header |
| UrlHandler.SlashFreeMatchUnique | src/url/url_handler.h:47-51 | two keys without a '/' that match the same path are the same key |
| UrlHandler.NoMatchNotFound | src/url/url_handler.h:70-71 | with no matching key, the answer is the serialised empty text/plain 404 carrying the original request's headers |
| UrlHandler.UniqueMatch | src/url/url_handler.h:45-67 | with exactly one matching key, whatever the iteration order, the answer is that key's action run on the copy with the extracted parameter, serialised |
| UrlHandler.OrderIrrelevant | src/url/url_handler.h:45-67 | when at most one key matches, any two iteration orders give the same answer |
| UrlActions.HeaderAt | src/url/user_agent_url_action.h:14 | unordered_map::at: the value when the key is present, otherwise out_of_range naming the key |
| UrlActions.FileName | src/url/file_url_action.h:21 | the file name is the directory as a prefix followed by the parameter, its length the sum of theirs |
| UrlActions.ReadFile | src/url/file_url_action.h:44-62 | reading succeeds exactly for an existing file and yields its stored contents; otherwise it throws "File does not exist!" |
| UrlActions.FileFound | src/url/file_url_action.h:29-33 | the found-file response can be built exactly when the file exists |
| UrlActions.Execute | src/url/user_agent_url_action.h:12-16 | an action fails exactly when it is the user-agent action and the request has no User-Agent header, and the failure is then that missing key |
| UrlActions.ExecuteFramed | src/url/echo_url_action.h:14 | every action's response stores its body's length as the content length |
| UrlActions.ExecuteStatus | src/url/not_found_url_action.h:13-14 | every action answers 200 "OK" or 404 "Not Found"; a 404 comes only from the not-found action or a missing file |
| UrlActions.DefaultConstant | src/url/default_url_action.h:16-19 | the default action gives every request the same empty 200 text/plain response with length 0 |
| UrlActions.EchoResponse | src/url/echo_url_action.h:12-15 | echo answers 200 "OK" text/plain with the parameter as the body and its length, and negotiates no encoding |
| UrlActions.EchoDependsOnlyOnParam | src/url/echo_url_action.h:12-15 | two requests with the same parameter get the same echo response |
| UrlActions.NotFoundResponse | src/url/not_found_url_action.h:12-15 | not-found answers an empty 404 "Not Found" text/plain with length 0, carrying the request's headers |
| UrlActions.NotFoundDependsOnlyOnHeaders | src/url/not_found_url_action.h:12-15 | two requests with the same headers get the same not-found response |
| UrlActions.UserAgentResponse | src/url/user_agent_url_action.h:12-16 | with a User-Agent header, the answer is 200 "OK" text/plain whose body is that header's value, framed, with the request's headers forwarded; without one it fails |
| UrlActions.FileResponse | src/url/file_url_action.h:20-38 | directory + parameter present: 200 with the stored contents, framed; absent: empty 404 "Not Found"; always application/octet-stream, with no headers forwarded |
| UrlActions.FileIgnoresMethodAndBody | src/url/file_url_action.h:20-27 | only directory + parameter matters to the file action: method, body and headers do not, and nothing is written |
| Server.Serve | src/url/url_handler.h:37-72 | a parsed and routed exchange fails only through the parser's out_of_range or the missing User-Agent; an empty reception is routed as the default request |
| Server.ExecuteReadable | src/response/http_response.h:19-27 | every reason phrase and content type an action uses is a single line, so its serialisation can be read back |
| Server.RouteFramed | src/url/url_handler.h:66-71 | whatever the router picks is readable and stores its body's length |
| Server.RouteStatus | src/url/url_handler.h:66-71 | whatever the router picks is 200 "OK" or 404 "Not Found" |
| Server.ServeFramed | src/response/http_response.h:27-34 | for any routes, request text and files, a client reads a Content-Length equal to the length of the body it finds |
| Server.ServeStatus | src/response/http_response.h:19 | for any routes, request text and files, a client reads "HTTP/1.1" with 200 OK or 404 Not Found |
| Server.ServeRendered | src/request/http_request_handler.h:46-66 | serving a well-formed request text is routing the request it was written from |
| Server.PlainFields | src/response/http_response.h:22-28 | without request headers, a response carries only Content-Type and Content-Length |
| Server.PlainRead | src/response/http_response.h:15-37 | a client reads a response without request headers as status, Content-Type, Content-Length and body |
| Server.RoutesSlashFree | src/url/url_handler.h:47 | none of the bound keys contains a '/' |
| Server.RoutesOrderIrrelevant | src/url/url_handler.h:45-67 | with the bound routes, the iteration order never changes an answer |
| Server.RouteTo | src/url/url_handler.h:45-66 | a bound key that matches is the one whose action answers |
| Server.RouteWithParam | src/url/url_handler.h:39-66 | a path that normalises to a bound key, '/', and a single-line parameter without a trailing slash is answered by that key's action with exactly that parameter and the directory |
| Server.EchoRoute | src/url/url_handler.h:47-66 | the path `echo/p` is answered by the echo action with parameter p |
| Server.EchoEndToEnd | src/url/echo_url_action.h:12-15 | a well-formed request for `/echo/p` is answered with a 200 that a client reads as exactly p, with only Content-Type and Content-Length whatever the headers |
| Server.DefaultRoute | src/url/url_handler.h:39-66 | the empty path normalises to "/" and is answered by the default action |
| Server.DefaultEndToEnd | src/url/default_url_action.h:16-19 | a well-formed request for `/` is answered with an empty 200 that a client reads with Content-Length 0 |
| Server.UserAgentEndToEnd | src/url/user_agent_url_action.h:12-16 | a well-formed request for `/user-agent` fails exactly when no User-Agent line was sent; otherwise a client reads a 200 whose body is the last User-Agent line's value |
| Server.UserAgentRoute | src/url/url_handler.h:47-66 | the path `user-agent` is answered by the user-agent action |
| Server.FilesRoute | src/url/url_handler.h:47-66 | the path `files/p` is answered by the file action looking up directory + p |
| Server.FilesEndToEnd | src/url/file_url_action.h:20-38 | a well-formed request for `/files/p` reads back as a 200 with the stored contents of directory + p, or an empty 404, always as application/octet-stream |
| Server.UnroutedEndToEnd | src/url/not_found_url_action.h:12-15 | a well-formed request no route claims reads back as an empty 404 that carries Content-Encoding exactly when its Accept-Encoding lists gzip |
| Server.ParseExample | src/request/http_request_handler.h:55-63 | "GET /echo/abc HTTP/1.1\r\nUser-Agent: foo\r\n\r\n" parses to method GET, path echo/abc, headers {User-Agent: foo} and an empty body |
| Server.EchoExample | src/url/echo_url_action.h:12-15 | that request is answered with "HTTP/1.1 200 OK\r\nContent-Type: text/plain\r\nContent-Length: 3\r\n\r\nabc" |
| Server.ExampleAnswer | src/response/http_response.h:15-37 | the echo response for "abc" serialises to exactly those bytes |

## Left out

- Sockets, `recv`, `close`, and the fixed 1024-byte receive buffer in
  `parseRequest` (src/request/http_request_handler.h:37-44). Parsing starts
  from the text already received, and only `Fits` (shorter than npos) is
  assumed of it.
- The listening loop and the thread pool (src/server.cpp,
  src/concurrent/thread_pool.h). They are I/O and concurrency. The
  src/server.cpp file is only a first-stage stub. The code that registers the
  routes and calls `sendResponseForUrl` is not part of this model; `Serve`
  and `ROUTES` stand for it.
- The real filesystem (`fs::exists`, `fs::file_size`, `ifstream`). It is a
  map from file name to contents.
  - Directories, permissions and read errors are not modelled.
  - The "Could not open the file" diagnostic is not modelled.
- The `std::regex` engine in general. Keys are taken literally, as if they
  contained no regex metacharacters. A key such as `a.b` would match more
  paths under the real regex.
- `resource_name`, the constructor argument every action stores and never
  reads.
- `Response.statusCode` is an unbounded `int` rather than a C++ `int`. Every
  action uses 200 or 404.
- `Response.contentLength` is a `nat` rather than a `size_t`. Every caller
  passes 0 or a string's `length()`, which is always below 2^64, so no
  wrap-around can occur.
- Bytes are modelled as `char`. `std::string` in the source is a byte string;
  nothing here depends on character encoding.
- Server.EchoEndToEnd: stated for parameters without a trailing '/' and
  without line ends. The router drops a trailing '/', as `ParamOf` and
  `ParamDecomposition` state for the general case.
- Server.FilesEndToEnd: stated for parameters without a trailing '/' and
  without line ends, for the same reason.
- Server.UserAgentEndToEnd: stated for the path `user-agent` alone. Longer
  paths under that key are routed the same way by `UniqueMatch` and
  `RoutesOrderIrrelevant`.
