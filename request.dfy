/**
 * `Server::parseRequest`: the raw request text becomes an HttpRequest.
 * RequestOf states what the parser produces, piece by piece; ParseRequest is
 * the parser itself, the std::getline loops over an std::istringstream, and
 * is proved to produce exactly RequestOf.
 */
module Request {
  import opened Wrappers
  import opened Text
  import opened Url

  /** HttpRequest: every field starts out empty and is filled by the parser. */
  datatype HttpRequest = HttpRequest(
    httpMethod: string,
    path: string,
    httpVersion: string,
    headers: map<string, string>,
    body: string,
    queryParams: map<string, string>)

  // ------------------------------------------------- last write wins

  type Pair = (string, string)

  /** The map left by `m[k] = v` for each pair in turn: a later pair overwrites an earlier one. */
  function FromPairs(ps: seq<Pair>): map<string, string> {
    if ps == [] then map[] else FromPairs(ps[..|ps| - 1])[ps[|ps| - 1].0 := ps[|ps| - 1].1]
  }

  /** The keys of FromPairs are exactly the keys that occur in the pairs. */
  lemma {:induction false} FromPairsKeys(ps: seq<Pair>)
    ensures FromPairs(ps).Keys == set i | 0 <= i < |ps| :: ps[i].0
  {
    if ps != [] {
      var init := ps[..|ps| - 1];
      FromPairsKeys(init);
      assert forall i :: 0 <= i < |init| ==> init[i] == ps[i];
      assert (set i | 0 <= i < |ps| :: ps[i].0) == (set i | 0 <= i < |init| :: init[i].0) + {ps[|ps| - 1].0};
    }
  }

  /** The value for a key is the one given by its last pair. */
  lemma {:induction false} FromPairsLastWins(ps: seq<Pair>, i: nat)
    requires i < |ps|
    requires forall j :: i < j < |ps| ==> ps[j].0 != ps[i].0
    ensures ps[i].0 in FromPairs(ps) && FromPairs(ps)[ps[i].0] == ps[i].1
  {
    if i < |ps| - 1 {
      var init := ps[..|ps| - 1];
      assert init[i] == ps[i];
      FromPairsLastWins(init, i);
    }
  }

  // --------------------------------------------------------- request line

  /** The request path: the target up to its first `?`. */
  function PathOf(target: string): (p: string)
    ensures '?' !in p
    ensures p <= target
    ensures '?' !in target ==> p == target
    ensures '?' in target ==> |p| < |target| && target[|p|] == '?'
  {
    match IndexOf(target, '?')
    case None => target
    case Some(i) => target[..i]
  }

  /** A target is cut at its first `?`, whatever the query holds. */
  lemma PathOfSplit(p: string, q: string)
    requires '?' !in p
    ensures PathOf(p + "?" + q) == p
  {
    var t := p + "?" + q;
    assert t[|p|] == '?';
    assert forall k :: 0 <= k < |p| ==> t[k] == p[k];
  }

  /** One `&`-separated piece: no `=` means no parameter; otherwise both
      sides of the first `=` are decoded, and either can fail. */
  function QueryField(param: string): (r: Option<Result<Pair, DecodeError>>)
    ensures r.None? <==> '=' !in param
  {
    match IndexOf(param, '=')
    case None => None
    case Some(i) =>
      match PercentDecoded(param[..i])
      case Failure(e) => Some(Failure(e))
      case Success(key) =>
        match PercentDecoded(param[i + 1..])
        case Failure(e) => Some(Failure(e))
        case Success(value) => Some(Success((key, value)))
  }

  /** The decoded pairs of the pieces, in order; a failure anywhere fails the whole. */
  function QueryPairs(params: seq<string>): Result<seq<Pair>, DecodeError> {
    if params == [] then Success([])
    else
      match QueryPairs(params[..|params| - 1])
      case Failure(e) => Failure(e)
      case Success(ps) =>
        match QueryField(params[|params| - 1])
        case None => Success(ps)
        case Some(Failure(e)) => Failure(e)
        case Some(Success(p)) => Success(ps + [p])
  }

  /** The map the query loop leaves for the pieces: the last pair for a key wins. */
  function QueryMap(params: seq<string>): Result<map<string, string>, DecodeError> {
    match QueryPairs(params)
    case Failure(e) => Failure(e)
    case Success(ps) => Success(FromPairs(ps))
  }

  /** The query parameters of a request target: what follows the first `?`. */
  function QueryOf(target: string): Result<map<string, string>, DecodeError> {
    match IndexOf(target, '?')
    case None => Success(map[])
    case Some(i) => QueryMap(Split(target[i + 1..], '&'))
  }

  /** Once a prefix of the pieces fails, the whole query fails. */
  lemma {:induction false} QueryFailurePersists(done: seq<string>, more: seq<string>)
    requires QueryPairs(done).Failure?
    ensures QueryPairs(done + more) == QueryPairs(done)
    decreases |more|
  {
    if more == [] {
      assert done + more == done;
    } else {
      var all := done + more;
      assert all[..|all| - 1] == done + more[..|more| - 1];
      QueryFailurePersists(done, more[..|more| - 1]);
    }
  }

  // ------------------------------------------------------------ headers

  /** A header line: trimmed text before and after the first `:`; no `:`, no header. */
  function HeaderField(line: string): (r: Option<Pair>)
    ensures r.None? <==> ':' !in line
  {
    match IndexOf(line, ':')
    case None => None
    case Some(i) => Some((Trim(line[..i]), Trim(line[i + 1..])))
  }

  /** The header pairs of the lines, in order. */
  function HeaderPairs(lines: seq<string>): seq<Pair> {
    if lines == [] then []
    else
      HeaderPairs(lines[..|lines| - 1])
      + match HeaderField(lines[|lines| - 1]) { case None => [] case Some(p) => [p] }
  }

  /** The map the header loop leaves for the lines: the last value for a key wins. */
  function HeaderMap(lines: seq<string>): map<string, string> {
    FromPairs(HeaderPairs(lines))
  }

  /** The lines after the request line up to (not including) the first that is exactly "\r". */
  function HeaderSection(lines: seq<string>): seq<string> {
    if lines == [] || lines[0] == "\r" then [] else [lines[0]] + HeaderSection(lines[1..])
  }

  /** The lines after that first "\r"; none when there is no such line. */
  function BodySection(lines: seq<string>): seq<string> {
    if lines == [] then []
    else if lines[0] == "\r" then lines[1..]
    else BodySection(lines[1..])
  }

  /** The header section ends at the first "\r" line and the body is all that follows it. */
  lemma {:induction false} SectionsSplitAtBlankLine(head: seq<string>, tail: seq<string>)
    requires "\r" !in head
    ensures HeaderSection(head + ["\r"] + tail) == head
    ensures BodySection(head + ["\r"] + tail) == tail
  {
    if head != [] {
      assert (head + ["\r"] + tail)[1..] == head[1..] + ["\r"] + tail;
      SectionsSplitAtBlankLine(head[1..], tail);
    } else {
      assert (head + ["\r"] + tail)[1..] == tail;
    }
  }

  /** Without a "\r" line every line is a header line and the body is empty. */
  lemma {:induction false} NoBlankLineNoBody(lines: seq<string>)
    requires "\r" !in lines
    ensures HeaderSection(lines) == lines && BodySection(lines) == []
  {
    if lines != [] {
      NoBlankLineNoBody(lines[1..]);
    }
  }

  // ------------------------------------------------------- whole request

  function FirstLine(lines: seq<string>): string {
    if lines == [] then "" else lines[0]
  }

  function LinesAfterFirst(lines: seq<string>): seq<string> {
    if lines == [] then [] else lines[1..]
  }

  /**
   * `lineStream >> method >> path >> httpVersion`: the first three words of
   * the request line. Once one read fails the stream is at its end, so every
   * later word is "" too.
   */
  function RequestLine(line: string): (r: (string, string, string))
    ensures r.0 == [] ==> r.1 == []
    ensures r.1 == [] ==> r.2 == []
    ensures !HasCSpace(r.0) && !HasCSpace(r.1) && !HasCSpace(r.2)
  {
    var (httpMethod, afterMethod) := NextToken(line);
    var (target, afterTarget) := NextToken(afterMethod);
    var (httpVersion, _) := NextToken(afterTarget);
    (httpMethod, target, httpVersion)
  }

  /** A request line of three words separated by single spaces is read back as those words. */
  lemma RequestLineWords(httpMethod: string, target: string, httpVersion: string)
    requires httpMethod != [] && target != [] && httpVersion != []
    requires !HasCSpace(httpMethod) && !HasCSpace(target) && !HasCSpace(httpVersion)
    ensures RequestLine(httpMethod + " " + target + " " + httpVersion) == (httpMethod, target, httpVersion)
  {
    var afterTarget := " " + (httpVersion + []);
    var afterMethod := " " + (target + afterTarget);
    assert httpMethod + " " + target + " " + httpVersion == httpMethod + afterMethod;
    NextTokenAt(httpMethod, afterMethod);
    NextTokenAfterSpace(target, afterTarget);
    NextTokenAfterSpace(httpVersion, []);
  }

  /**
   * The request `parseRequest` builds from `raw`: method, target and version
   * are the first three words of the first line (missing ones stay ""); the
   * target is cut at its first `?` and the rest read as query parameters;
   * header lines run to the first line that is exactly "\r"; the body is
   * every later line followed by "\n", concatenated and trimmed. A malformed
   * `%` escape in the query is the only failure.
   */
  function RequestOf(raw: string): Result<HttpRequest, DecodeError> {
    var lines := Split(raw, '\n');
    var fields := LinesAfterFirst(lines);
    var (httpMethod, target, httpVersion) := RequestLine(FirstLine(lines));
    match QueryOf(target)
    case Failure(e) => Failure(e)
    case Success(params) =>
      Success(HttpRequest(
        httpMethod, PathOf(target), httpVersion,
        HeaderMap(HeaderSection(fields)),
        Trim(JoinTerminated(BodySection(fields), '\n')),
        params))
  }

  lemma FromPairsSnoc(ps: seq<Pair>, p: Pair)
    ensures FromPairs(ps + [p]) == FromPairs(ps)[p.0 := p.1]
  {
    assert (ps + [p])[..|ps|] == ps;
  }

  lemma QueryPairsAdd(done: seq<string>, param: string, ps: seq<Pair>, p: Pair)
    requires QueryPairs(done) == Success(ps)
    requires QueryField(param) == Some(Success(p))
    ensures QueryPairs(done + [param]) == Success(ps + [p])
  {
    assert (done + [param])[..|done|] == done;
  }

  lemma QueryPairsSkip(done: seq<string>, param: string)
    requires QueryField(param).None?
    ensures QueryPairs(done + [param]) == QueryPairs(done)
  {
    assert (done + [param])[..|done|] == done;
  }

  lemma QueryPairsFail(done: seq<string>, param: string, e: DecodeError)
    requires QueryPairs(done).Success?
    requires QueryField(param) == Some(Failure(e))
    ensures QueryPairs(done + [param]) == Failure(e)
  {
    assert (done + [param])[..|done|] == done;
  }

  lemma HeaderPairsSnoc(seen: seq<string>, line: string)
    ensures HeaderPairs(seen + [line]) ==
      HeaderPairs(seen) + match HeaderField(line) { case None => [] case Some(p) => [p] }
  {
    assert (seen + [line])[..|seen|] == seen;
  }

  lemma HeaderPairsAdd(seen: seq<string>, line: string, p: Pair)
    requires HeaderField(line) == Some(p)
    ensures HeaderPairs(seen + [line]) == HeaderPairs(seen) + [p]
  {
    HeaderPairsSnoc(seen, line);
  }

  /** A header line with a `:` sets its key, overwriting an earlier value. */
  lemma HeaderMapAdd(seen: seq<string>, line: string, p: Pair)
    requires HeaderField(line) == Some(p)
    ensures HeaderMap(seen + [line]) == HeaderMap(seen)[p.0 := p.1]
  {
    HeaderPairsSnoc(seen, line);
    FromPairsSnoc(HeaderPairs(seen), p);
  }

  /** A header line without `:` is ignored. */
  lemma HeaderMapSkip(seen: seq<string>, line: string)
    requires ':' !in line
    ensures HeaderMap(seen + [line]) == HeaderMap(seen)
  {
    HeaderPairsSnoc(seen, line);
    assert HeaderPairs(seen + [line]) == HeaderPairs(seen) + [];
    assert HeaderPairs(seen) + [] == HeaderPairs(seen);
  }

  /** One header-loop step over a line that is not "\r". */
  lemma SectionsAdvance(fields: seq<string>, seen: seq<string>, stream: string)
    requires stream != [] && GetLine(stream, '\n').0 != "\r"
    requires HeaderSection(fields) == seen + HeaderSection(Split(stream, '\n'))
    requires BodySection(fields) == BodySection(Split(stream, '\n'))
    ensures HeaderSection(fields) == (seen + [GetLine(stream, '\n').0]) + HeaderSection(Split(GetLine(stream, '\n').1, '\n'))
    ensures BodySection(fields) == BodySection(Split(GetLine(stream, '\n').1, '\n'))
  {
    var (line, rest) := GetLine(stream, '\n');
    SplitStep(stream, '\n');
    var more := Split(rest, '\n');
    SectionsStep(line, more);
    assert seen + ([line] + HeaderSection(more)) == (seen + [line]) + HeaderSection(more);
  }

  lemma SectionsStep(line: string, more: seq<string>)
    requires line != "\r"
    ensures HeaderSection([line] + more) == [line] + HeaderSection(more)
    ensures BodySection([line] + more) == BodySection(more)
  {
    assert ([line] + more)[1..] == more;
  }

  /** The header-loop step over the "\r" line: the header section is complete
      and the rest of the stream is the body section. */
  lemma SectionsEnd(fields: seq<string>, seen: seq<string>, stream: string)
    requires stream != [] && GetLine(stream, '\n').0 == "\r"
    requires HeaderSection(fields) == seen + HeaderSection(Split(stream, '\n'))
    requires BodySection(fields) == BodySection(Split(stream, '\n'))
    ensures HeaderSection(fields) == seen
    ensures BodySection(fields) == Split(GetLine(stream, '\n').1, '\n')
  {
    var (line, rest) := GetLine(stream, '\n');
    SplitStep(stream, '\n');
    var more := Split(rest, '\n');
    assert ([line] + more)[1..] == more;
    assert seen + [] == seen;
  }

  /** One iteration of the query loop: split at the first `=` and decode both sides. */
  method ReadParam(param: string) returns (r: Option<Result<Pair, DecodeError>>)
    ensures r == QueryField(param)
  {
    var eqPos := IndexOf(param, '=');
    if eqPos.None? {
      return None;
    }
    var key := UrlDecode(param[..eqPos.value]);
    if key.Failure? {
      return Some(Failure(key.error));
    }
    var value := UrlDecode(param[eqPos.value + 1..]);
    if value.Failure? {
      return Some(Failure(value.error));
    }
    r := Some(Success((key.value, value.value)));
  }

  /** The query loop of `parseRequest`: std::getline on '&' over the text after the `?`. */
  method ReadQuery(queryString: string) returns (r: Result<map<string, string>, DecodeError>)
    ensures r == QueryMap(Split(queryString, '&'))
  {
    var queryParams := map[];
    var queryStream := queryString;
    ghost var done: seq<string> := [];
    ghost var pairs: seq<Pair> := [];
    while queryStream != []
      invariant Split(queryString, '&') == done + Split(queryStream, '&')
      invariant QueryPairs(done) == Success(pairs)
      invariant queryParams == FromPairs(pairs)
      decreases |queryStream|
    {
      SplitAdvance(done, queryStream, '&');
      var got := GetLine(queryStream, '&');
      var param := got.0;
      ghost var more := Split(got.1, '&');
      queryStream := got.1;
      var field := ReadParam(param);
      match field {
        case Some(Failure(e)) =>
          QueryPairsFail(done, param, e);
          QueryFailurePersists(done + [param], more);
          return Failure(e);
        case Some(Success(p)) =>
          QueryPairsAdd(done, param, pairs, p);
          FromPairsSnoc(pairs, p);
          queryParams := queryParams[p.0 := p.1];
          pairs := pairs + [p];
        case None =>
          QueryPairsSkip(done, param);
      }
      done := done + [param];
    }
    assert done == Split(queryString, '&');
    r := Success(queryParams);
  }

  /** The header loop of `parseRequest`: lines up to the first "\r" line,
      leaving the stream just after it. */
  method ReadHeaders(stream: string) returns (headers: map<string, string>, rest: string)
    ensures headers == HeaderMap(HeaderSection(Split(stream, '\n')))
    ensures Split(rest, '\n') == BodySection(Split(stream, '\n'))
  {
    ghost var fields := Split(stream, '\n');
    var iss := stream;
    headers := map[];
    ghost var seen: seq<string> := [];
    while iss != []
      invariant HeaderSection(fields) == seen + HeaderSection(Split(iss, '\n'))
      invariant BodySection(fields) == BodySection(Split(iss, '\n'))
      invariant headers == HeaderMap(seen)
      decreases |iss|
    {
      var got := GetLine(iss, '\n');
      var line := got.0;
      if line == "\r" {
        SectionsEnd(fields, seen, iss);
        rest := got.1;
        return;
      }
      SectionsAdvance(fields, seen, iss);
      iss := got.1;
      var colonPos := IndexOf(line, ':');
      if colonPos.Some? {
        var key := Trim(line[..colonPos.value]);
        var value := Trim(line[colonPos.value + 1..]);
        HeaderMapAdd(seen, line, (key, value));
        headers := headers[key := value];
      } else {
        HeaderMapSkip(seen, line);
      }
      seen := seen + [line];
    }
    assert seen + [] == seen;
    rest := iss;
  }

  /** The body loop of `parseRequest`: every remaining line followed by "\n". */
  method ReadBody(stream: string) returns (bodyContent: string)
    ensures bodyContent == JoinTerminated(Split(stream, '\n'), '\n')
  {
    var iss := stream;
    bodyContent := "";
    while iss != []
      invariant bodyContent + JoinTerminated(Split(iss, '\n'), '\n') == JoinTerminated(Split(stream, '\n'), '\n')
      decreases |iss|
    {
      SplitStep(iss, '\n');
      var got := GetLine(iss, '\n');
      var remainingLine := got.0;
      JoinStep(remainingLine, Split(got.1, '\n'), '\n');
      ghost var j := JoinTerminated(Split(got.1, '\n'), '\n');
      assert bodyContent + (remainingLine + "\n" + j) == bodyContent + remainingLine + "\n" + j;
      iss := got.1;
      bodyContent := bodyContent + remainingLine + "\n";
    }
    assert bodyContent + [] == bodyContent;
  }

  /** `Server::parseRequest`. The string `iss` is the unread part of the stream. */
  method ParseRequest(requestString: string) returns (r: Result<HttpRequest, DecodeError>)
    ensures r == RequestOf(requestString)
  {
    var iss := requestString;
    var line := "";
    if iss != [] {
      SplitStep(iss, '\n');
      var got := GetLine(iss, '\n');
      line, iss := got.0, got.1;
    }
    ghost var lines := Split(requestString, '\n');
    assert line == FirstLine(lines) && Split(iss, '\n') == LinesAfterFirst(lines);
    var (httpMethod, lineStream) := NextToken(line);
    var (path, lineStream2) := NextToken(lineStream);
    var (httpVersion, _) := NextToken(lineStream2);
    ghost var target := path;
    assert RequestLine(line) == (httpMethod, target, httpVersion);
    var queryParams := map[];
    var queryPos := IndexOf(path, '?');
    if queryPos.Some? {
      var queryString := path[queryPos.value + 1..];
      path := path[..queryPos.value];
      var query := ReadQuery(queryString);
      assert query == QueryOf(target);
      if query.Failure? {
        return Failure(query.error);
      }
      queryParams := query.value;
    }
    assert QueryOf(target) == Success(queryParams) && path == PathOf(target);
    var headers, afterHeaders := ReadHeaders(iss);
    var bodyContent := ReadBody(afterHeaders);
    r := Success(HttpRequest(httpMethod, path, httpVersion, headers, Trim(bodyContent), queryParams));
  }

  // ---------------------------------------------------------- properties

  /** The converse of FromPairsLastWins: every entry of the map is the last pair given for its key. */
  lemma {:induction false} FromPairsValue(ps: seq<Pair>, k: string)
    requires k in FromPairs(ps)
    ensures exists i ::
              && 0 <= i < |ps| && ps[i] == (k, FromPairs(ps)[k])
              && forall j :: i < j < |ps| ==> ps[j].0 != k
  {
    var n := |ps| - 1;
    var init := ps[..n];
    if ps[n].0 == k {
      assert ps[n] == (k, FromPairs(ps)[k]);
    } else {
      FromPairsValue(init, k);
      var i :| 0 <= i < |init| && init[i] == (k, FromPairs(init)[k]) &&
        forall j :: i < j < |init| ==> init[j].0 != k;
      assert ps[i] == init[i];
      forall j | i < j < |ps| ensures ps[j].0 != k {
        if j < n {
          assert ps[j] == init[j];
        }
      }
    }
  }

  /** A `key=value` piece whose sides decode sets that key, overwriting an earlier value. */
  lemma QueryMapAdd(done: seq<string>, param: string, k: string, v: string)
    requires QueryMap(done).Success?
    requires QueryField(param) == Some(Success((k, v)))
    ensures QueryMap(done + [param]) == Success(QueryMap(done).value[k := v])
  {
    QueryPairsAdd(done, param, QueryPairs(done).value, (k, v));
    FromPairsSnoc(QueryPairs(done).value, (k, v));
  }

  /** A piece without `=` is dropped. */
  lemma QueryMapSkip(done: seq<string>, param: string)
    requires '=' !in param
    ensures QueryMap(done + [param]) == QueryMap(done)
  {
    QueryPairsSkip(done, param);
  }

  /** A piece with a malformed escape fails the whole query, whatever comes after it. */
  lemma QueryMapFail(done: seq<string>, param: string, more: seq<string>, e: DecodeError)
    requires QueryMap(done).Success?
    requires QueryField(param) == Some(Failure(e))
    ensures QueryMap(done + [param] + more) == Failure(e)
  {
    QueryPairsFail(done, param, e);
    QueryFailurePersists(done + [param], more);
  }

  /** A malformed escape in the key fails the piece, whatever the value. */
  lemma QueryKeyFails(p: string, a: char, b: char, rest: string, value: string)
    requires '%' !in p && HexValue(a, b).None? && '=' !in p + ['%', a, b] + rest
    ensures QueryField((p + ['%', a, b] + rest) + "=" + value) == Some(Failure(InvalidHexEscape))
  {
    var key := p + ['%', a, b] + rest;
    var param := key + "=" + value;
    IndexOfAt(key, value, '=');
    assert param[..|key|] == key;
    DecodeBadEscape(p, a, b, rest);
  }

  /** A malformed escape in the value fails the piece, whatever the key. */
  lemma QueryFieldFails(key: string, p: string, a: char, b: char, rest: string)
    requires '=' !in key && '%' !in p && HexValue(a, b).None?
    ensures QueryField(key + "=" + (p + ['%', a, b] + rest)) == Some(Failure(InvalidHexEscape))
  {
    var value := p + ['%', a, b] + rest;
    var param := key + "=" + value;
    IndexOfAt(key, value, '=');
    assert param[..|key|] == key;
    assert param[|key| + 1..] == value;
    DecodeBadEscape(p, a, b, rest);
    match PercentDecoded(key)
    case Failure(e) => assert e == InvalidHexEscape;
    case Success(_) =>
  }

  /** The query of a target is read from what follows its first `?`. */
  lemma QueryOfAt(path: string, query: string)
    requires '?' !in path
    ensures QueryOf(path + "?" + query) == QueryMap(Split(query, '&'))
  {
    IndexOfAt(path, query, '?');
    assert (path + "?" + query)[|path| + 1..] == query;
  }

  /** A target whose first query piece fails to decode has no query map, whatever follows. */
  lemma QueryOfFails(path: string, param: string, more: string, e: DecodeError)
    requires '?' !in path && '&' !in param
    requires QueryField(param) == Some(Failure(e))
    ensures QueryOf(path + "?" + (param + "&" + more)) == Failure(e)
  {
    QueryOfAt(path, param + "&" + more);
    FirstPiece(param, more);
    FirstPieceFails(param, Split(more, '&'), e);
  }

  lemma FirstPieceFails(param: string, more: seq<string>, e: DecodeError)
    requires QueryField(param) == Some(Failure(e))
    ensures QueryMap([param] + more) == Failure(e)
  {
    QueryMapFail([], param, more, e);
    assert [] + [param] + more == [param] + more;
  }

  lemma FirstPiece(param: string, more: string)
    requires '&' !in param
    ensures Split(param + "&" + more, '&') == [param] + Split(more, '&')
  {
    assert param + "&" + more == param + ['&'] + more;
    SplitTerminated(param, more, '&');
  }

  /** A request whose query fails to decode is not parsed; `parseRequest` throws. */
  lemma BadQueryRejected(httpMethod: string, target: string, httpVersion: string,
                         headerLines: seq<string>, body: string)
    requires httpMethod != [] && target != [] && httpVersion != []
    requires !HasCSpace(httpMethod) && !HasCSpace(target) && !HasCSpace(httpVersion)
    requires Unbroken(headerLines, '\n') && "\r" !in headerLines
    requires QueryOf(target).Failure?
    ensures RequestOf(RequestText(httpMethod + " " + target + " " + httpVersion, headerLines, body)).Failure?
  {
    var line := httpMethod + " " + target + " " + httpVersion;
    RequestLineWords(httpMethod, target, httpVersion);
    assert '\n' !in line by {
      assert IsCSpace('\n');
      forall k | 0 <= k < |line| ensures line[k] != '\n' {
        if k < |httpMethod| {
          assert line[k] == httpMethod[k];
        } else if |httpMethod| < k < |httpMethod| + 1 + |target| {
          assert line[k] == target[k - |httpMethod| - 1];
        } else if |httpMethod| + 1 + |target| < k {
          assert line[k] == httpVersion[k - |httpMethod| - 2 - |target|];
        }
      }
    }
    ParseRequestText(line, headerLines, body);
  }

  /** Only the first `=` of a piece separates key from value. */
  lemma QueryFieldAtFirstEquals(key: string, value: string, k: string, v: string)
    requires '=' !in key
    requires PercentDecoded(key) == Success(k) && PercentDecoded(value) == Success(v)
    ensures QueryField(key + "=" + value) == Some(Success((k, v)))
  {
    var param := key + "=" + value;
    assert param[|key|] == '=';
    assert param[..|key|] == key;
    assert param[|key| + 1..] == value;
  }

  /** Only the first `:` of a header line separates name from value; both are trimmed. */
  lemma HeaderFieldAtFirstColon(name: string, value: string)
    requires ':' !in name
    ensures HeaderField(name + ":" + value) == Some((Trim(name), Trim(value)))
  {
    var line := name + ":" + value;
    assert line[|name|] == ':';
    assert line[..|name|] == name;
    assert line[|name| + 1..] == value;
  }

  /** After parsing, the path holds no `?`. */
  lemma ParsedPathHasNoQuery(raw: string)
    requires RequestOf(raw).Success?
    ensures '?' !in RequestOf(raw).value.path
  {
  }

  lemma QueryFieldWithoutPercent(param: string)
    requires '%' !in param
    ensures QueryField(param).None? || QueryField(param).value.Success?
  {
    match IndexOf(param, '=')
    case None =>
    case Some(i) =>
      var key, value := param[..i], param[i + 1..];
      NotInSlice(param, '%', 0, i);
      assert param[0..i] == key;
      NotInSlice(param, '%', i + 1, |param|);
      assert param[i + 1..|param|] == value;
      DecodeWithoutPercent(key);
      DecodeWithoutPercent(value);
  }

  lemma {:induction false} QueryPairsWithoutPercent(params: seq<string>)
    requires forall k :: 0 <= k < |params| ==> '%' !in params[k]
    ensures QueryPairs(params).Success?
  {
    if params != [] {
      var n := |params| - 1;
      var init := params[..n];
      assert forall k :: 0 <= k < |init| ==> init[k] == params[k];
      QueryPairsWithoutPercent(init);
      QueryFieldWithoutPercent(params[n]);
    }
  }

  /** Without a `%` in the target, decoding its query cannot fail. */
  lemma QueryWithoutPercentDecodes(target: string)
    requires '%' !in target
    ensures QueryOf(target).Success?
  {
    match IndexOf(target, '?')
    case None =>
    case Some(i) =>
      var queryString := target[i + 1..];
      NotInSlice(target, '%', i + 1, |target|);
      assert target[i + 1..|target|] == queryString;
      SplitPieces(queryString, '&', '%');
      QueryPairsWithoutPercent(Split(queryString, '&'));
      assert QueryPairs(Split(queryString, '&')).Success?;
  }

  /**
   * Parsing never rejects a request for its request line: missing words
   * are "", and the one way to fail is a malformed `%` escape in the query.
   */
  lemma RequestLineNeverRejected(raw: string)
    requires '%' !in FirstLine(Split(raw, '\n'))
    ensures RequestOf(raw).Success?
  {
    var line := FirstLine(Split(raw, '\n'));
    TokenWithin(line, '%');
    TokenWithin(NextToken(line).1, '%');
    QueryWithoutPercentDecodes(NextToken(NextToken(line).1).0);
  }

  /** A request as a client writes it: the request line, each header line, the line "\r", then the body. */
  function RequestText(requestLine: string, headerLines: seq<string>, body: string): string {
    requestLine + "\n" + JoinTerminated(headerLines, '\n') + "\r\n" + body
  }

  /**
   * Parsing a request written out line by line gives back its parts:
   * the words of the request line, the header map of the header lines,
   * and the trimmed body, ended by a "\n" when the body text had none.
   */
  lemma ParseRequestText(requestLine: string, headerLines: seq<string>, body: string)
    requires '\n' !in requestLine && Unbroken(headerLines, '\n') && "\r" !in headerLines
    ensures var r := RequestOf(RequestText(requestLine, headerLines, body));
      var (httpMethod, target, httpVersion) := RequestLine(requestLine);
      (r.Failure? <==> QueryOf(target).Failure?) &&
      (r.Success? ==>
        && r.value.httpMethod == httpMethod
        && r.value.path == PathOf(target)
        && r.value.httpVersion == httpVersion
        && Success(r.value.queryParams) == QueryOf(target)
        && r.value.headers == HeaderMap(headerLines)
        && r.value.body == Trim(if body == [] || body[|body| - 1] == '\n' then body else body + "\n"))
  {
    var lines := Split(RequestText(requestLine, headerLines, body), '\n');
    var fields := headerLines + ["\r"] + Split(body, '\n');
    RequestTextLines(requestLine, headerLines, body);
    assert FirstLine(lines) == requestLine && LinesAfterFirst(lines) == fields by {
      assert lines[1..] == fields;
    }
    SectionsSplitAtBlankLine(headerLines, Split(body, '\n'));
    SplitJoin(body, '\n');
  }

  /** The lines of a written-out request. */
  lemma RequestTextLines(requestLine: string, headerLines: seq<string>, body: string)
    requires '\n' !in requestLine && Unbroken(headerLines, '\n')
    ensures Split(RequestText(requestLine, headerLines, body), '\n')
         == [requestLine] + (headerLines + ["\r"] + Split(body, '\n'))
  {
    var pieces := [requestLine] + headerLines + ["\r"];
    assert JoinTerminated(pieces, '\n') == requestLine + "\n" + JoinTerminated(headerLines, '\n') + "\r\n" by {
      JoinAppend([requestLine] + headerLines, ["\r"], '\n');
      JoinAppend([requestLine], headerLines, '\n');
      JoinStep(requestLine, [], '\n');
      JoinStep("\r", [], '\n');
    }
    assert Unbroken(pieces, '\n') by {
      forall k | 0 <= k < |pieces| ensures '\n' !in pieces[k] {
        if 0 < k < |pieces| - 1 {
          assert pieces[k] == headerLines[k - 1];
        }
      }
    }
    assert RequestText(requestLine, headerLines, body) == JoinTerminated(pieces, '\n') + body;
    SplitJoinTerminated(pieces, body, '\n');
    ConsAppend(requestLine, headerLines, ["\r"]);
    ConsAppend(requestLine, headerLines + ["\r"], Split(body, '\n'));
  }
}
