/**
 * `Server` (src/squirrel.cpp): the GET route table, the static directory,
 * and `processRequest`, which picks the one branch that answers a parsed
 * request. Dispatch states that choice; the class Server holds the state
 * `get` and `setStaticDir` change, and its ProcessRequest is proved to
 * follow Dispatch.
 */
module Server {
  import opened Wrappers
  import opened Text
  import opened OrderedMap
  import opened Response
  import opened Request

  /** The two builds of the server, told apart by `#ifdef _WIN32`. */
  datatype Platform = Posix | Windows

  /** The separator `setStaticDir` appends on each platform. */
  function Separator(p: Platform): char {
    match p
    case Posix => '/'
    case Windows => '\\'
  }

  predicate EndsWithSeparator(dir: string) {
    dir != [] && (dir[|dir| - 1] == '/' || dir[|dir| - 1] == '\\')
  }

  /**
   * The directory `setStaticDir(dir)` stores: an empty one stays empty,
   * one ending in either separator stays as it is, and any other gets the
   * platform's separator appended.
   */
  function NormalizedDir(dir: string, p: Platform): (d: string)
    ensures dir == [] <==> d == []
    ensures dir != [] ==> EndsWithSeparator(d)
    ensures dir <= d && |d| <= |dir| + 1
  {
    if dir != [] && !EndsWithSeparator(dir) then dir + [Separator(p)] else dir
  }

  /** A request handler: what it leaves in the response for a request and the response it is given. */
  type Handler = (HttpRequest, ResponseValue) -> ResponseValue

  const MethodNotAllowedBody: string :=
    "<h1>405 method not allowed</h1><p>only get requests are supported by this server</p>"

  const NotFoundPrefix: string := "<h1>404 not found</h1><p>the requested URL "
  const NotFoundSuffix: string := " was not found on this server</p>"

  /** The answer to any method other than GET. */
  function MethodNotAllowed(r: ResponseValue): (s: ResponseValue)
    ensures s.statusCode == 405 && s.statusMessage == "method not allowed" && s.body == MethodNotAllowedBody
    ensures ToMap(s.headers) ==
      ToMap(r.headers)["Allow" := "GET"]["Content-Length" := NatToString(|MethodNotAllowedBody|)]
  {
    Sent(r.(statusCode := 405, statusMessage := "method not allowed",
            headers := Put(r.headers, "Allow", "GET")),
         MethodNotAllowedBody)
  }

  /** The answer to a GET that no route and no file serves. */
  function NotFound(r: ResponseValue, path: string): (s: ResponseValue)
    ensures s.statusCode == 404 && s.statusMessage == "not found"
    ensures s.body == NotFoundPrefix + path + NotFoundSuffix
    ensures ToMap(s.headers) == ToMap(r.headers)["Content-Length" := NatToString(|s.body|)]
  {
    Sent(r.(statusCode := 404, statusMessage := "not found"), NotFoundPrefix + path + NotFoundSuffix)
  }

  /**
   * The file a path names under the static directory: `index.html` for
   * "/", otherwise the path without its leading character. An empty path
   * names no file.
   */
  function FileTarget(staticDir: string, path: string): (r: Option<string>)
    ensures r.None? <==> path == []
    ensures r.Some? ==> staticDir <= r.value
  {
    if path == "/" then Some(staticDir + "index.html")
    else if path == [] then None
    else Some(staticDir + path[1..])
  }

  /**
   * What `processRequest` leaves in a response that held `r`. A non-GET
   * request is refused with 405 and `Allow: GET`. A GET whose path is a
   * route gets that route's handler. Otherwise, when a static directory is
   * set and the file for the path can be opened, `sendFile` answers it; in
   * every other case the answer is 404 naming the path.
   */
  function Dispatch(routes: map<string, Handler>, staticDir: string, fs: FileSystem,
                    request: HttpRequest, r: ResponseValue): ResponseValue
  {
    if request.httpMethod != "GET" then MethodNotAllowed(r)
    else if request.path in routes then routes[request.path](request, r)
    else
      var target := FileTarget(staticDir, request.path);
      if staticDir != [] && target.Some? && target.value in fs then FileSent(r, fs, target.value)
      else NotFound(r, request.path)
  }

  // ---------------------------------------------------------- the object

  /** The server's state outside its sockets and threads. */
  class Server {
    const port: int
    const platform: Platform
    var routes: map<string, Handler>
    var staticDir: string

    /** `Server(port)`: no routes, no static directory. */
    constructor (port: int, platform: Platform)
      ensures this.port == port && this.platform == platform
      ensures routes == map[] && staticDir == []
    {
      this.port := port;
      this.platform := platform;
      routes := map[];
      staticDir := [];
    }

    /** `get(path, handler)`: `m_getRoutes[path] = handler`. */
    method Get(path: string, handler: Handler)
      modifies this
      ensures routes == old(routes)[path := handler]
      ensures staticDir == old(staticDir)
    {
      routes := routes[path := handler];
    }

    method SetStaticDir(dir: string)
      modifies this
      ensures staticDir == NormalizedDir(dir, platform)
      ensures routes == old(routes)
    {
      staticDir := dir;
      if staticDir != [] && staticDir[|staticDir| - 1] != '/' && staticDir[|staticDir| - 1] != '\\' {
        staticDir := staticDir + [Separator(platform)];
      }
    }

    /**
     * `processRequest`, with the empty path kept out of the static branch
     * (the source takes `substr(1)` of it; see DispatchAsWritten). That the
     * file opens is `filePath in fs`, which `sendFile` then opens again.
     */
    method ProcessRequest(request: HttpRequest, response: HttpResponse, fs: FileSystem)
      modifies response
      ensures response.Value() == Dispatch(routes, staticDir, fs, request, old(response.Value()))
    {
      if request.httpMethod == "GET" {
        if request.path in routes {
          var handler := routes[request.path];
          response.Assign(handler(request, response.Value()));
          return;
        }
        if staticDir != [] {
          var filePath := staticDir;
          var named := true;
          if request.path == "/" {
            filePath := filePath + "index.html";
          } else if request.path == [] {
            named := false;
          } else {
            filePath := filePath + request.path[1..];
          }
          if named && filePath in fs {
            response.SendFile(fs, filePath);
            return;
          }
        }
        response.SetStatus(404, "not found");
        response.Send(NotFoundPrefix + request.path + NotFoundSuffix);
      } else {
        response.SetStatus(405, "method not allowed");
        response.SetHeader("Allow", "GET");
        response.Send(MethodNotAllowedBody);
      }
    }
  }

  // ------------------------------------------------------------ properties

  /** `setStaticDir` applied to its own result changes nothing. */
  lemma NormalizedDirIdempotent(dir: string, p: Platform, q: Platform)
    ensures NormalizedDir(NormalizedDir(dir, p), q) == NormalizedDir(dir, p)
  {
  }

  /** A separator is appended exactly when the directory lacks one. */
  lemma NormalizedDirAppends(dir: string, p: Platform)
    ensures dir != [] && !EndsWithSeparator(dir) <==> NormalizedDir(dir, p) != dir
    ensures NormalizedDir(dir, p) != dir ==> NormalizedDir(dir, p) == dir + [Separator(p)]
  {
  }

  /** Any method other than GET is refused the same way, whatever the path and the routes. */
  lemma NonGetRefused(routes: map<string, Handler>, staticDir: string, fs: FileSystem,
                      request: HttpRequest, r: ResponseValue,
                      routes': map<string, Handler>, staticDir': string, fs': FileSystem, path': string)
    requires request.httpMethod != "GET"
    ensures var s := Dispatch(routes, staticDir, fs, request, r);
      && s.statusCode == 405 && s.statusMessage == "method not allowed"
      && Header(s, "Allow") == Some("GET")
      && s.body == MethodNotAllowedBody
      && Header(s, "Content-Length") == Some(NatToString(|MethodNotAllowedBody|))
      && s == Dispatch(routes', staticDir', fs', request.(path := path'), r)
  {
    var allowed := r.(statusCode := 405, statusMessage := "method not allowed",
                      headers := Put(r.headers, "Allow", "GET"));
    SentLength(allowed, MethodNotAllowedBody);
    var s := Sent(allowed, MethodNotAllowedBody);
    assert ToMap(s.headers)["Allow"] == "GET";
  }

  /** A GET on a route runs its handler: the static directory and the files play no part. */
  lemma RouteWins(routes: map<string, Handler>, staticDir: string, fs: FileSystem,
                  request: HttpRequest, r: ResponseValue, staticDir': string, fs': FileSystem)
    requires request.httpMethod == "GET" && request.path in routes
    ensures Dispatch(routes, staticDir, fs, request, r) == routes[request.path](request, r)
    ensures Dispatch(routes, staticDir, fs, request, r) == Dispatch(routes, staticDir', fs', request, r)
  {
  }

  /** After `get(path, handler)`, a GET on that path runs that handler and every other path answers as before. */
  lemma RouteRegistered(routes: map<string, Handler>, path: string, handler: Handler, staticDir: string,
                        fs: FileSystem, request: HttpRequest, r: ResponseValue)
    requires request.httpMethod == "GET"
    ensures request.path == path ==>
      Dispatch(routes[path := handler], staticDir, fs, request, r) == handler(request, r)
    ensures request.path != path ==>
      Dispatch(routes[path := handler], staticDir, fs, request, r) == Dispatch(routes, staticDir, fs, request, r)
  {
  }

  /**
   * A readable file under the static directory is served whole: the
   * status stays as it was (200 for a fresh response), the body is the
   * file, and Content-Length and Content-Type are set from it.
   */
  lemma StaticFileServed(routes: map<string, Handler>, staticDir: string, fs: FileSystem,
                         request: HttpRequest, r: ResponseValue, filePath: string)
    requires request.httpMethod == "GET" && request.path !in routes && staticDir != []
    requires request.path != [] && request.path != "/" && filePath == staticDir + request.path[1..]
    requires filePath in fs && fs[filePath].Readable?
    ensures var s := Dispatch(routes, staticDir, fs, request, r);
      && s.statusCode == r.statusCode && s.statusMessage == r.statusMessage
      && s.body == fs[filePath].bytes
      && Header(s, "Content-Type") == Some(ContentType(filePath))
      && Header(s, "Content-Length") == Some(NatToString(|fs[filePath].bytes|))
  {
    var s := Dispatch(routes, staticDir, fs, request, r);
    assert s == FileSent(r, fs, filePath);
    assert ToMap(s.headers)["Content-Type"] == ContentType(filePath);
  }

  /** "/" serves `index.html` of the static directory, as text/html. */
  lemma IndexServed(routes: map<string, Handler>, staticDir: string, fs: FileSystem,
                    request: HttpRequest, r: ResponseValue)
    requires request.httpMethod == "GET" && request.path == "/" && "/" !in routes && staticDir != []
    requires staticDir + "index.html" in fs && fs[staticDir + "index.html"].Readable?
    ensures var s := Dispatch(routes, staticDir, fs, request, r);
      && s.body == fs[staticDir + "index.html"].bytes
      && Header(s, "Content-Type") == Some("text/html")
  {
    var filePath := staticDir + "index.html";
    assert filePath == (staticDir + "index") + "." + "html";
    ContentTypeOfExtension(staticDir + "index", "html");
    var s := Dispatch(routes, staticDir, fs, request, r);
    assert s == FileSent(r, fs, filePath);
    assert ToMap(s.headers)["Content-Type"] == "text/html";
  }

  /** A file that opens but cannot be read gives 500, through `sendFile`. */
  lemma StaticFileUnreadable(routes: map<string, Handler>, staticDir: string, fs: FileSystem,
                             request: HttpRequest, r: ResponseValue)
    requires request.httpMethod == "GET" && request.path !in routes && staticDir != []
    requires FileTarget(staticDir, request.path).Some?
    requires FileTarget(staticDir, request.path).value in fs
    requires fs[FileTarget(staticDir, request.path).value].Unreadable?
    ensures var s := Dispatch(routes, staticDir, fs, request, r);
      s.statusCode == 500 && s.statusMessage == "internal server error"
  {
  }

  /** A GET that nothing serves is 404, and the body names the path. */
  lemma NotFoundNamesPath(routes: map<string, Handler>, staticDir: string, fs: FileSystem,
                          request: HttpRequest, r: ResponseValue)
    requires request.httpMethod == "GET" && request.path !in routes
    requires staticDir == [] || FileTarget(staticDir, request.path).None?
          || FileTarget(staticDir, request.path).value !in fs
    ensures var s := Dispatch(routes, staticDir, fs, request, r);
      && s.statusCode == 404 && s.statusMessage == "not found"
      && |s.body| == |NotFoundPrefix| + |request.path| + |NotFoundSuffix|
      && s.body[|NotFoundPrefix|..|NotFoundPrefix| + |request.path|] == request.path
      && Header(s, "Content-Length") == Some(NatToString(|s.body|))
  {
    var s := Dispatch(routes, staticDir, fs, request, r);
    assert s == NotFound(r, request.path);
    SentLength(r.(statusCode := 404, statusMessage := "not found"), NotFoundPrefix + request.path + NotFoundSuffix);
    assert s.body == NotFoundPrefix + request.path + NotFoundSuffix;
  }

  /** Whatever branch answers, other than a handler, Content-Length is the body length. */
  lemma DispatchLengthConsistent(routes: map<string, Handler>, staticDir: string, fs: FileSystem,
                                 request: HttpRequest, r: ResponseValue)
    requires request.httpMethod != "GET" || request.path !in routes
    ensures LengthConsistent(Dispatch(routes, staticDir, fs, request, r))
    ensures Header(Dispatch(routes, staticDir, fs, request, r), "Content-Length").Some?
  {
    var target := FileTarget(staticDir, request.path);
    if request.httpMethod != "GET" {
      var allowed := r.(statusCode := 405, statusMessage := "method not allowed",
                        headers := Put(r.headers, "Allow", "GET"));
      SentLength(allowed, MethodNotAllowedBody);
    } else if staticDir != [] && target.Some? && target.value in fs {
      FileSentLength(r, fs, target.value);
    } else {
      SentLength(r.(statusCode := 404, statusMessage := "not found"), NotFoundPrefix + request.path + NotFoundSuffix);
    }
  }

  // --------------------------------------- the empty path, as written

  /** The exception `request.path.substr(1)` throws when the path is empty. */
  datatype Fault = PathOutOfRange

  /** The file path as the source builds it: `substr(1)` of an empty path throws std::out_of_range. */
  function FileTargetAsWritten(staticDir: string, path: string): (r: Result<string, Fault>)
    ensures r.Failure? <==> path == []
  {
    if path == "/" then Success(staticDir + "index.html")
    else if |path| < 1 then Failure(PathOutOfRange)
    else Success(staticDir + path[1..])
  }

  /** `processRequest` as written: the static branch reaches `substr(1)` for every path but "/". */
  function DispatchAsWritten(routes: map<string, Handler>, staticDir: string, fs: FileSystem,
                             request: HttpRequest, r: ResponseValue): (res: Result<ResponseValue, Fault>)
    ensures res.Failure? <==>
      request.httpMethod == "GET" && request.path == [] && [] !in routes && staticDir != []
  {
    if request.httpMethod != "GET" then Success(MethodNotAllowed(r))
    else if request.path in routes then Success(routes[request.path](request, r))
    else if staticDir == [] then Success(NotFound(r, request.path))
    else
      match FileTargetAsWritten(staticDir, request.path)
      case Failure(e) => Failure(e)
      case Success(filePath) =>
        if filePath in fs then Success(FileSent(r, fs, filePath))
        else Success(NotFound(r, request.path))
  }

  /** The corrected answer for the empty path: 404 naming it, with its Content-Length. */
  lemma EmptyPathNotFound(routes: map<string, Handler>, staticDir: string, fs: FileSystem,
                          request: HttpRequest, r: ResponseValue)
    requires request.httpMethod == "GET" && request.path == [] && [] !in routes
    ensures var s := Dispatch(routes, staticDir, fs, request, r);
      && s.statusCode == 404 && s.statusMessage == "not found"
      && s.body == NotFoundPrefix + NotFoundSuffix
      && LengthConsistent(s)
  {
    assert NotFoundPrefix + [] + NotFoundSuffix == NotFoundPrefix + NotFoundSuffix;
    SentLength(r.(statusCode := 404, statusMessage := "not found"), NotFoundPrefix + NotFoundSuffix);
  }

  /**
   * The code as written and Dispatch agree on every request except one
   * kind: a GET for the empty path, with a static directory set and no
   * route for "", which throws instead of answering 404.
   */
  lemma AsWrittenDiffersOnlyOnEmptyPath(routes: map<string, Handler>, staticDir: string, fs: FileSystem,
                                        request: HttpRequest, r: ResponseValue)
    ensures DispatchAsWritten(routes, staticDir, fs, request, r).Failure?
        <==> request.httpMethod == "GET" && request.path == [] && [] !in routes && staticDir != []
    ensures DispatchAsWritten(routes, staticDir, fs, request, r).Success? ==>
      DispatchAsWritten(routes, staticDir, fs, request, r).value == Dispatch(routes, staticDir, fs, request, r)
    ensures DispatchAsWritten(routes, staticDir, fs, request, r).Failure? ==>
      Dispatch(routes, staticDir, fs, request, r) == NotFound(r, [])
  {
  }

  /** A target that starts with `?` has the empty path, and without `%` its query decodes. */
  lemma QueryOnlyTarget(target: string)
    requires target != [] && target[0] == '?' && '%' !in target
    ensures PathOf(target) == [] && QueryOf(target).Success?
  {
    assert IndexOf(target, '?') == Some(0);
    QueryWithoutPercentDecodes(target);
  }

  /** A request whose target is only a query is parsed with the empty path. */
  lemma QueryOnlyTargetParsed(httpMethod: string, target: string, version: string)
    requires httpMethod != [] && !HasCSpace(httpMethod)
    requires target != [] && target[0] == '?' && !HasCSpace(target) && '%' !in target
    requires version != [] && !HasCSpace(version)
    ensures var raw := RequestText(httpMethod + " " + target + " " + version, [], "");
      && RequestOf(raw).Success?
      && RequestOf(raw).value.httpMethod == httpMethod
      && RequestOf(raw).value.path == []
  {
    var line := httpMethod + " " + target + " " + version;
    WordsOneLine(httpMethod, target, version);
    RequestLineWords(httpMethod, target, version);
    QueryOnlyTarget(target);
    ParseRequestText(line, [], "");
  }

  lemma GetIsWord()
    ensures "GET" != [] && !HasCSpace("GET")
  {
  }

  /**
   * The parser does produce that request: a GET whose target is only a
   * query has the empty path, so with a static directory set and no route
   * for "" the code as written throws on it.
   */
  lemma EmptyPathReachable(target: string, version: string, staticDir: string, routes: map<string, Handler>,
                           fs: FileSystem, r: ResponseValue)
    requires target != [] && target[0] == '?' && !HasCSpace(target) && '%' !in target
    requires version != [] && !HasCSpace(version)
    requires staticDir != [] && [] !in routes
    ensures var raw := RequestText("GET" + " " + target + " " + version, [], "");
      && RequestOf(raw).Success?
      && DispatchAsWritten(routes, staticDir, fs, RequestOf(raw).value, r).Failure?
  {
    GetIsWord();
    QueryOnlyTargetParsed("GET", target, version);
  }

  /** The request line "GET ?a=b HTTP/1.1" is such a request. */
  lemma EmptyPathExample(target: string, version: string, staticDir: string, routes: map<string, Handler>,
                         fs: FileSystem, r: ResponseValue)
    requires target == "?a=b" && version == "HTTP/1.1"
    requires staticDir != [] && [] !in routes
    ensures var raw := RequestText("GET" + " " + target + " " + version, [], "");
      RequestOf(raw).Success? && DispatchAsWritten(routes, staticDir, fs, RequestOf(raw).value, r).Failure?
  {
    assert !HasCSpace(target) && '%' !in target;
    assert !HasCSpace(version);
    EmptyPathReachable(target, version, staticDir, routes, fs, r);
  }
}
