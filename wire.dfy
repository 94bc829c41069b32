/**
 * The text `Server::sendResponse` writes to the socket: the status line,
 * one `Key: Value` line per header in the std::map's key order, a blank
 * line, then the body as it is. WireFormat states it; SerializeResponse is
 * the ostringstream loop, proved to build exactly that. As a partner, the
 * server's own request parser is shown to read the header lines back as
 * the header map.
 */
module Wire {
  import opened Wrappers
  import opened Text
  import opened OrderedMap
  import opened Response
  import opened Request

  /** `"HTTP/1.1" << " " << statusCode << " " << statusMessage << "\r\n"`. */
  function StatusLine(r: ResponseValue): string {
    "HTTP/1.1 " + IntToString(r.statusCode as int) + " " + r.statusMessage + "\r\n"
  }

  /** `header.first << ": " << header.second << "\r\n"`. */
  function HeaderText(h: Entry): string {
    h.0 + ": " + h.1 + "\r\n"
  }

  /** The header lines, in the order of the entries. */
  function HeaderBlock(e: seq<Entry>): string {
    if e == [] then [] else HeaderBlock(e[..|e| - 1]) + HeaderText(e[|e| - 1])
  }

  /** The whole response text. */
  function WireFormat(r: ResponseValue): string {
    StatusLine(r) + HeaderBlock(r.headers) + "\r\n" + r.body
  }

  lemma HeaderBlockSnoc(e: seq<Entry>, i: nat)
    requires i < |e|
    ensures HeaderBlock(e[..i + 1]) == HeaderBlock(e[..i]) + HeaderText(e[i])
  {
    assert e[..i + 1][..i] == e[..i];
  }

  /** The string-building part of `sendResponse`: the header loop appends one line per entry. */
  method SerializeResponse(response: HttpResponse) returns (responseString: string)
    ensures responseString == WireFormat(response.Value())
  {
    var headers := response.headers;
    var code := IntToString(response.statusCode as int);
    var oss := "HTTP/1.1" + " " + code + " " + response.statusMessage + "\r\n";
    assert oss == StatusLine(response.Value());
    for i := 0 to |headers|
      invariant oss == StatusLine(response.Value()) + HeaderBlock(headers[..i])
    {
      var line := headers[i].0 + ": " + headers[i].1 + "\r\n";
      HeaderBlockSnoc(headers, i);
      oss := oss + line;
    }
    assert headers[..|headers|] == headers;
    oss := oss + "\r\n";
    oss := oss + response.body;
    responseString := oss;
  }

  // ------------------------------------------------------------ properties

  /** The text starts with the status line and ends with the body, unchanged. */
  lemma WireShape(r: ResponseValue)
    ensures StatusLine(r) <= WireFormat(r)
    ensures |WireFormat(r)| >= |r.body| && WireFormat(r)[|WireFormat(r)| - |r.body|..] == r.body
  {
    var w := WireFormat(r);
    var head := StatusLine(r) + HeaderBlock(r.headers) + "\r\n";
    assert w == head + r.body;
    assert w[..|StatusLine(r)|] == StatusLine(r);
    assert w[|head|..] == r.body;
  }

  /** Each header line without its final "\n", as std::getline on '\n' reads it. */
  function HeaderLineRead(h: Entry): string {
    h.0 + ": " + h.1 + "\r"
  }

  function HeaderLinesRead(e: seq<Entry>): (lines: seq<string>)
    ensures |lines| == |e|
  {
    if e == [] then [] else HeaderLinesRead(e[..|e| - 1]) + [HeaderLineRead(e[|e| - 1])]
  }

  lemma {:induction false} HeaderBlockLines(e: seq<Entry>)
    ensures HeaderBlock(e) == JoinTerminated(HeaderLinesRead(e), '\n')
  {
    if e != [] {
      var n := |e| - 1;
      HeaderBlockLines(e[..n]);
      JoinAppend(HeaderLinesRead(e[..n]), [HeaderLineRead(e[n])], '\n');
      JoinStep(HeaderLineRead(e[n]), [], '\n');
    }
  }

  /** A name or a value that reads back unchanged: not empty, no
      whitespace at either end, and no `\n`; a name holds no `:` either. */
  predicate CleanText(t: string) {
    t != [] && !IsTrimSpace(t[0]) && !IsTrimSpace(t[|t| - 1]) && '\n' !in t
  }

  predicate CleanEntry(h: Entry) {
    CleanText(h.0) && ':' !in h.0 && CleanText(h.1)
  }

  predicate CleanHeaders(e: seq<Entry>) {
    forall i :: 0 <= i < |e| ==> CleanEntry(e[i])
  }

  /** The parser's header rule recovers a clean entry from its line. */
  lemma HeaderLineReadBack(h: Entry)
    requires CleanEntry(h)
    ensures HeaderField(HeaderLineRead(h)) == Some(h)
  {
    var name, value := h.0, h.1;
    var rest := " " + value + "\r";
    assert HeaderLineRead(h) == name + ":" + rest;
    assert Trim(name) == name by {
      assert "" + name + "" == name;
      TrimSurrounded("", name, "");
    }
    assert Trim(rest) == value by {
      assert AllTrimSpace(" ") && AllTrimSpace("\r");
      TrimSurrounded(" ", value, "\r");
    }
    HeaderFieldAtFirstColon(name, rest);
  }

  /**
   * Why a value must not be empty: the line for ("X", "") is "X: \r", and
   * `trim` keeps the all-whitespace " \r" as it is.
   */
  lemma EmptyValueNotReadBack(name: string)
    requires CleanText(name) && ':' !in name
    ensures HeaderField(HeaderLineRead((name, ""))) == Some((name, " \r"))
  {
    var rest := " \r";
    assert HeaderLineRead((name, "")) == name + ":" + rest;
    assert Trim(name) == name by {
      assert "" + name + "" == name;
      TrimSurrounded("", name, "");
    }
    assert AllTrimSpace(rest);
    HeaderFieldAtFirstColon(name, rest);
  }

  /** A clean entry's line is one line, and not the blank line. */
  lemma HeaderLineSingle(h: Entry)
    requires CleanEntry(h)
    ensures '\n' !in HeaderLineRead(h) && HeaderLineRead(h) != "\r"
  {
    var name, value := h.0, h.1;
    var line := HeaderLineRead(h);
    assert line == name + ": " + value + "\r";
    assert line[0] == name[0];
    forall k | 0 <= k < |line| ensures line[k] != '\n' {
      if k < |name| {
        assert line[k] == name[k];
      } else if |name| + 2 <= k < |name| + 2 + |value| {
        assert line[k] == value[k - |name| - 2];
      }
    }
  }

  /** The lines of clean entries are single lines, none of them blank. */
  lemma HeaderLinesSingle(e: seq<Entry>)
    requires CleanHeaders(e)
    ensures Unbroken(HeaderLinesRead(e), '\n') && "\r" !in HeaderLinesRead(e)
  {
    var lines := HeaderLinesRead(e);
    forall k | 0 <= k < |lines| ensures '\n' !in lines[k] && lines[k] != "\r" {
      HeaderLineAt(e, k);
      HeaderLineSingle(e[k]);
    }
  }

  lemma {:induction false} HeaderLineAt(e: seq<Entry>, k: nat)
    requires k < |e|
    ensures HeaderLinesRead(e)[k] == HeaderLineRead(e[k])
  {
    var n := |e| - 1;
    if k < n {
      HeaderLineAt(e[..n], k);
    }
  }

  lemma CleanPrefix(e: seq<Entry>, n: nat)
    requires CleanHeaders(e) && n <= |e|
    ensures CleanHeaders(e[..n])
  {
    forall i | 0 <= i < n ensures CleanEntry(e[..n][i]) { assert e[..n][i] == e[i]; }
  }

  lemma HeaderLinesSnoc(e: seq<Entry>)
    requires e != []
    ensures HeaderLinesRead(e) == HeaderLinesRead(e[..|e| - 1]) + [HeaderLineRead(e[|e| - 1])]
  {
  }

  lemma {:induction false} HeaderPairsReadBack(e: seq<Entry>)
    requires CleanHeaders(e)
    ensures HeaderPairs(HeaderLinesRead(e)) == e
  {
    if e != [] {
      var n := |e| - 1;
      var pre, last := e[..n], e[n];
      var earlier := HeaderLinesRead(pre);
      calc {
        HeaderPairs(HeaderLinesRead(e));
        { HeaderLinesSnoc(e); }
        HeaderPairs(earlier + [HeaderLineRead(last)]);
        { HeaderLineReadBack(last); HeaderPairsAdd(earlier, HeaderLineRead(last), last); }
        HeaderPairs(earlier) + [last];
        { CleanPrefix(e, n); HeaderPairsReadBack(pre); }
        pre + [last];
        e;
      }
    }
  }

  /** For distinct keys the last-wins map is the map of the entry list. */
  lemma IncreasingFromPairs(e: Entries)
    ensures FromPairs(e) == ToMap(e)
  {
    FromPairsKeys(e);
    forall k | k in ToMap(e) ensures k in FromPairs(e) && FromPairs(e)[k] == ToMap(e)[k] {
      var i :| 0 <= i < |e| && e[i].0 == k;
      forall j | i < j < |e| ensures e[j].0 != k {
        LessIrreflexive(e[i].0);
      }
      FromPairsLastWins(e, i);
      ToMapAt(e, i);
    }
  }

  /** The status line without its `\n` holds no `\n` when the message holds none. */
  lemma StatusLineClean(r: ResponseValue, first: string)
    requires '\n' !in r.statusMessage
    requires first == "HTTP/1.1 " + IntToString(r.statusCode as int) + " " + r.statusMessage + "\r"
    ensures '\n' !in first
  {
    var code := IntToString(r.statusCode as int);
    forall k | 0 <= k < |first| ensures first[k] != '\n' {
      if 9 <= k < 9 + |code| {
        assert first[k] == code[k - 9];
        CodeChars(r.statusCode as int);
      } else if 10 + |code| <= k < |first| - 1 {
        assert first[k] == r.statusMessage[k - 10 - |code|];
      }
    }
  }

  /** The text of a status code is a `-` and decimal digits. */
  lemma CodeChars(i: int)
    ensures forall k :: 0 <= k < |IntToString(i)| ==> IntToString(i)[k] == '-' || IsDigit(IntToString(i)[k])
    ensures '%' !in IntToString(i) && '?' !in IntToString(i)
  {
    var code := IntToString(i);
    if i < 0 {
      assert forall k :: 1 <= k < |code| ==> code[k] == code[1..][k - 1];
    }
    forall k | 0 <= k < |code| ensures code[k] != '%' && code[k] != '?' { }
  }

  /**
   * Read as a request line, the status line's second word is the status
   * code's text. That word is the parser's target, the only part it
   * decodes, and it holds no `%` or `?`.
   */
  lemma StatusCodeWord(r: ResponseValue, first: string)
    requires first == "HTTP/1.1 " + IntToString(r.statusCode as int) + " " + r.statusMessage + "\r"
    ensures RequestLine(first).1 == IntToString(r.statusCode as int)
    ensures '%' !in RequestLine(first).1 && '?' !in RequestLine(first).1
  {
    var code := IntToString(r.statusCode as int);
    CodeChars(r.statusCode as int);
    CodeWord(code, r.statusMessage);
    assert RequestLine(first).1 == code;
  }

  /** A word of `-` and digits after "HTTP/1.1 " is the second word read. */
  lemma CodeWord(code: string, message: string)
    requires code != [] && forall k :: 0 <= k < |code| ==> code[k] == '-' || IsDigit(code[k])
    ensures RequestLine("HTTP/1.1 " + code + " " + message + "\r").1 == code
  {
    assert !HasCSpace(code) by {
      forall k | 0 <= k < |code| ensures !IsCSpace(code[k]) { }
    }
    var afterCode := " " + message + "\r";
    assert "HTTP/1.1 " + code + " " + message + "\r" == "HTTP/1.1" + (" " + (code + afterCode));
    StatusLineTarget(code, afterCode);
  }

  /** The second word of a status line is the code's text. */
  lemma StatusLineTarget(code: string, afterCode: string)
    requires code != [] && !HasCSpace(code) && afterCode != [] && afterCode[0] == ' '
    ensures RequestLine("HTTP/1.1" + (" " + (code + afterCode))).1 == code
  {
    var version := "HTTP/1.1";
    assert !HasCSpace(version) by {
      forall k | 0 <= k < |version| ensures !IsCSpace(version[k]) { }
    }
    NextTokenAt(version, " " + (code + afterCode));
    NextTokenAfterSpace(code, afterCode);
  }

  /** The response text, cut where the request parser cuts its input. */
  lemma WireAsRequestText(r: ResponseValue, first: string)
    requires first == "HTTP/1.1 " + IntToString(r.statusCode as int) + " " + r.statusMessage + "\r"
    ensures WireFormat(r) == RequestText(first, HeaderLinesRead(r.headers), r.body)
  {
    HeaderBlockLines(r.headers);
    assert StatusLine(r) == first + "\n";
  }

  /**
   * Read by the server's own parser, the response text gives back the
   * header map exactly: every header once, with its value, whenever names
   * and values are clean and the status message is one line.
   */
  lemma WireReadBack(r: ResponseValue)
    requires CleanHeaders(r.headers) && '\n' !in r.statusMessage
    ensures RequestOf(WireFormat(r)).Success?
    ensures RequestOf(WireFormat(r)).value.headers == ToMap(r.headers)
  {
    var first := "HTTP/1.1 " + IntToString(r.statusCode as int) + " " + r.statusMessage + "\r";
    var lines := HeaderLinesRead(r.headers);
    var w := WireFormat(r);
    WireAsRequestText(r, first);
    StatusLineClean(r, first);
    StatusCodeWord(r, first);
    HeaderPairsReadBack(r.headers);
    HeaderLinesSingle(r.headers);
    ParseRequestText(first, lines, r.body);
    RequestTextLines(first, lines, r.body);
    QueryWithoutPercentDecodes(RequestLine(first).1);
    IncreasingFromPairs(r.headers);
  }
}
