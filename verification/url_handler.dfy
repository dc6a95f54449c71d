/** URLHandler: a registry from URL keys to actions, and the routing of a
    parsed request to the first registered key its path starts with. */
module UrlHandler {
  import opened Results
  import opened CppString
  import opened HttpRequest
  import opened HttpResponse
  import opened UrlActions

  /** url_map: each key is bound to one action. */
  type Registry = map<string, Action>

  /** registerUrl: binds `name` to `action`, replacing any earlier binding. */
  function RegisterUrl(registry: Registry, name: string, action: Action): (r: Registry)
    ensures name in r && r[name] == action
    ensures forall k | k != name :: (k in r <==> k in registry)
    ensures forall k | k in registry && k != name :: r[k] == registry[k]
  {
    registry[name := action]
  }

  /** The order in which the unordered_map hands out its keys: every key
      exactly once. The standard library leaves it unspecified, so it is a
      parameter of the router. */
  predicate IsOrder(registry: Registry, order: seq<string>) {
    && (forall k | k in registry :: k in order)
    && (forall i | 0 <= i < |order| :: order[i] in registry)
    && (forall i, j | 0 <= i < j < |order| :: order[i] != order[j])
  }

  predicate EndsInSlash(s: string) {
    |s| > 0 && s[|s| - 1] == '/'
  }

  /** The path with a '/' appended unless it already ends in one. */
  function Normalize(path: string): (r: string)
    ensures EndsInSlash(r)
    ensures path <= r && |r| <= |path| + 1
    ensures EndsInSlash(path) <==> r == path
  {
    if EndsInSlash(path) then path else path + "/"
  }

  /** The regex `^key/(.*)` matches: the path starts with the key and a slash.
      Keys are taken literally. */
  predicate Matches(key: string, urlPath: string): (b: bool)
    ensures b <==> |key| < |urlPath| && urlPath[..|key|] == key && urlPath[|key|] == '/'
  {
    key + "/" <= urlPath
  }

  /** What `(.*)` captures: `.` matches anything but CR and LF, and the star
      is greedy, so the capture is the longest prefix without a line end. */
  function Capture(s: string): (c: string)
    ensures c <= s && OneLine(c)
    ensures |c| < |s| ==> s[|c|] in LINE_ENDS
  {
    match FindFirstOf(s, LINE_ENDS, 0)
    case None => s
    case Some(i) => s[..i]
  }

  /** The route parameter: the capture after `key/`, less one trailing '/'. */
  function ParamOf(key: string, urlPath: string): (p: string)
    requires Matches(key, urlPath)
    ensures p <= urlPath[|key| + 1..]
  {
    var c := Capture(urlPath[|key| + 1..]);
    if EndsInSlash(c) then c[..|c| - 1] else c
  }

  /** The first key, in iteration order, that matches the path. */
  function FirstMatch(order: seq<string>, urlPath: string): (r: Option<string>)
    ensures r.Some? ==> r.value in order && Matches(r.value, urlPath)
    ensures r.None? <==> forall i | 0 <= i < |order| :: !Matches(order[i], urlPath)
    ensures r.Some? ==> exists i | 0 <= i < |order| ::
      (order[i] == r.value && forall j | 0 <= j < i :: !Matches(order[j], urlPath))
  {
    if |order| == 0 then None
    else if Matches(order[0], urlPath) then Some(order[0])
    else
      var r := FirstMatch(order[1..], urlPath);
      assert forall i | 1 <= i < |order| :: order[i] == order[1..][i - 1];
      r
  }

  /** The copy of the request handed to the action: only the route parameter
      and the directory are filled in. */
  function RoutedRequest(req: Request, key: string, urlPath: string, directoryName: string): (r: Request)
    requires Matches(key, urlPath)
    ensures r.httpMethod == req.httpMethod && r.path == req.path
    ensures r.headers == req.headers && r.body == req.body
    ensures r.requestParam == ParamOf(key, urlPath) && r.directoryName == directoryName
  {
    req.(requestParam := ParamOf(key, urlPath), directoryName := directoryName)
  }

  /** The response sendResponseForUrl serialises: that of the first
      matching action, or of the not-found action on the original request.
      Fails only when the chosen action does. */
  function RouteResponse(registry: Registry, order: seq<string>, req: Request,
                         directoryName: string, fs: FileSystem): (r: Result<Response>)
    requires IsOrder(registry, order)
    ensures r.Failure? ==> r.error == KeyNotFound(USER_AGENT)
  {
    var urlPath := Normalize(req.path);
    match FirstMatch(order, urlPath)
    case Some(key) => Execute(registry[key], RoutedRequest(req, key, urlPath, directoryName), fs)
    case None => Execute(NotFound, req, fs)
  }

  /** sendResponseForUrl: the routed response, serialised. */
  function SendResponseForUrl(registry: Registry, order: seq<string>, req: Request,
                              directoryName: string, fs: FileSystem): (r: Result<string>)
    requires IsOrder(registry, order)
    ensures r.Failure? ==> r.error == KeyNotFound(USER_AGENT)
  {
    var response :- RouteResponse(registry, order, req, directoryName, fs);
    Success(Serialize(response))
  }

  /* ------------------------------ properties ------------------------------ */

  lemma NormalizeIdempotent(path: string)
    ensures Normalize(Normalize(path)) == Normalize(path)
  {
  }

  /** A parameter without line ends or a trailing slash, put after `key/`,
      is what the router extracts again. */
  lemma ParamRoundTrip(key: string, p: string)
    requires OneLine(p) && !EndsInSlash(p)
    ensures Matches(key, Normalize(key + "/" + p))
    ensures ParamOf(key, Normalize(key + "/" + p)) == p
  {
    var u := Normalize(key + "/" + p);
    var rest := u[|key| + 1..];
    if p == "" {
      assert u == key + "/";
      assert rest == "";
    } else {
      assert u == key + "/" + p + "/";
      assert rest == p + "/";
      CaptureLine(p + "/");
      assert (p + "/")[..|p|] == p;
    }
  }

  /** Without line ends, the capture is everything. */
  lemma CaptureLine(s: string)
    requires OneLine(s)
    ensures Capture(s) == s
  {
    FindFirstNone(s, LINE_ENDS, 0, true);
  }

  /** Conversely, a matched single-line path is `key/`, or `key/` followed by
      the parameter and a slash. */
  lemma ParamDecomposition(key: string, path: string)
    requires OneLine(path) && Matches(key, Normalize(path))
    ensures var u := Normalize(path);
      (u == key + "/" && ParamOf(key, u) == "")
      || u == key + "/" + ParamOf(key, u) + "/"
  {
    var u := Normalize(path);
    var rest := u[|key| + 1..];
    assert OneLine(u) by {
      forall i | 0 <= i < |u|
        ensures u[i] !in LINE_ENDS
      {
        if i < |path| {
          assert u[i] == path[i];
        }
      }
    }
    assert OneLine(rest) by {
      assert forall i | 0 <= i < |rest| :: rest[i] == u[|key| + 1 + i];
    }
    CaptureLine(rest);
    assert u == key + "/" + rest;
    if rest != "" {
      assert rest[|rest| - 1] == u[|u| - 1] == '/';
      assert rest == rest[..|rest| - 1] + "/";
    }
  }

  /** Keys without a slash can never both match one path. */
  lemma SlashFreeMatchUnique(k1: string, k2: string, urlPath: string)
    requires '/' !in k1 && '/' !in k2
    requires Matches(k1, urlPath) && Matches(k2, urlPath)
    ensures k1 == k2
  {
    KeyEndsAtFirstSlash(k1, urlPath);
    KeyEndsAtFirstSlash(k2, urlPath);
    assert forall i | 0 <= i < |k1| :: k1[i] == urlPath[i] == k2[i];
  }

  /** A slash-free key that matches ends where the path's first slash is. */
  lemma KeyEndsAtFirstSlash(key: string, urlPath: string)
    requires '/' !in key && Matches(key, urlPath)
    ensures Find(urlPath, '/', 0) == Some(|key|)
  {
    forall j | 0 <= j < |key|
      ensures urlPath[j] !in {'/'}
    {
      assert urlPath[j] == key[j];
    }
    assert urlPath[|key|] == (key + "/")[|key|];
    FindFirstAt(urlPath, {'/'}, 0, true, |key|);
  }

  /** When no registered key matches, the answer is the not-found response
      to the original request. */
  lemma NoMatchNotFound(registry: Registry, order: seq<string>, req: Request,
                        directoryName: string, fs: FileSystem)
    requires IsOrder(registry, order)
    requires forall k | k in registry :: !Matches(k, Normalize(req.path))
    ensures SendResponseForUrl(registry, order, req, directoryName, fs)
         == Success(Serialize(Response(NOT_FOUND_MESSAGE, 404, TEXT_PLAIN, 0, "", req.headers)))
  {
  }

  /** When exactly one registered key matches, its action runs on the
      request with the extracted parameter and the directory, and the
      answer is that response serialised, whatever the iteration order. */
  lemma UniqueMatch(registry: Registry, order: seq<string>, req: Request,
                    directoryName: string, fs: FileSystem, key: string)
    requires IsOrder(registry, order)
    requires key in registry && Matches(key, Normalize(req.path))
    requires forall k | k in registry && k != key :: !Matches(k, Normalize(req.path))
    ensures var routed := RoutedRequest(req, key, Normalize(req.path), directoryName);
      && routed.requestParam == ParamOf(key, Normalize(req.path))
      && SendResponseForUrl(registry, order, req, directoryName, fs)
         == (match Execute(registry[key], routed, fs)
             case Success(response) => Success(Serialize(response))
             case Failure(e) => Failure(e))
  {
    var u := Normalize(req.path);
    var first := FirstMatch(order, u);
    assert key in order;
    assert first.Some? && first.value in registry;
  }

  /** With at most one matching key, the iteration order makes no difference. */
  lemma OrderIrrelevant(registry: Registry, order1: seq<string>, order2: seq<string>,
                        req: Request, directoryName: string, fs: FileSystem)
    requires IsOrder(registry, order1) && IsOrder(registry, order2)
    requires forall k1, k2 | k1 in registry && k2 in registry
               && Matches(k1, Normalize(req.path)) && Matches(k2, Normalize(req.path)) :: k1 == k2
    ensures SendResponseForUrl(registry, order1, req, directoryName, fs)
         == SendResponseForUrl(registry, order2, req, directoryName, fs)
  {
    var u := Normalize(req.path);
    if k :| k in registry && Matches(k, u) {
      UniqueMatch(registry, order1, req, directoryName, fs, k);
      UniqueMatch(registry, order2, req, directoryName, fs, k);
    } else {
      NoMatchNotFound(registry, order1, req, directoryName, fs);
      NoMatchNotFound(registry, order2, req, directoryName, fs);
    }
  }
}
