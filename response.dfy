/**
 * `HttpResponse` (src/squirrel.hpp): a record that handlers and the static
 * file branch fill in place. ResponseValue is its value at one moment; the
 * functions Initial, Sent and FileSent say what the constructor, `send` and
 * `sendFile` make of it, and the class HttpResponse is the mutable object
 * itself, whose methods are proved to follow them.
 */
module Response {
  import opened Wrappers
  import opened Text
  import opened OrderedMap

  /** The C++ `int` of the status code. */
  newtype int32 = x: int | -0x8000_0000 <= x < 0x8000_0000

  datatype ResponseValue = ResponseValue(
    statusCode: int32,
    statusMessage: string,
    headers: Entries,
    body: string)

  /** What opening and reading a file yields: its bytes, or a read that fails after a successful open. */
  datatype FileEntry = Readable(bytes: string) | Unreadable

  /** The files std::ifstream can open; a path not in the map cannot be opened. */
  type FileSystem = map<string, FileEntry>

  /** The header value for a key, if the key is present. */
  function Header(r: ResponseValue, key: string): Option<string> {
    Lookup(r.headers, key)
  }

  /** `Content-Length`, when present, is the decimal length of the body. */
  predicate LengthConsistent(r: ResponseValue) {
    Header(r, "Content-Length").Some? ==> Header(r, "Content-Length").value == NatToString(|r.body|)
  }

  // -------------------------------------------------------- the operations

  /** A fresh response: 200 "OK", no body, and the one header Content-Type: text/html. */
  function Initial(): (r: ResponseValue)
    ensures r.statusCode == 200 && r.statusMessage == "OK" && r.body == []
    ensures ToMap(r.headers) == map["Content-Type" := "text/html"]
    ensures |r.headers| == 1
  {
    ResponseValue(200, "OK", Put([], "Content-Type", "text/html"), "")
  }

  /** `send(content)`: the body becomes `content` and Content-Length its length; nothing else changes. */
  function Sent(r: ResponseValue, content: string): (s: ResponseValue)
    ensures s.statusCode == r.statusCode && s.statusMessage == r.statusMessage
    ensures s.body == content
    ensures ToMap(s.headers) == ToMap(r.headers)["Content-Length" := NatToString(|content|)]
  {
    r.(body := content, headers := Put(r.headers, "Content-Length", NatToString(|content|)))
  }

  /** The extension table of `sendFile`: exact, case-sensitive comparisons. */
  function MimeType(ext: string): string {
    if ext == "html" || ext == "htm" then "text/html"
    else if ext == "css" then "text/css"
    else if ext == "js" then "application/javascript"
    else if ext == "json" then "application/json"
    else if ext == "jpg" || ext == "jpeg" then "image/jpeg"
    else if ext == "png" then "image/png"
    else if ext == "gif" then "image/gif"
    else if ext == "svg" then "image/svg+xml"
    else if ext == "ico" then "image/x-icon"
    else if ext == "pdf" then "application/pdf"
    else "application/octet-stream"
  }

  /** The content type of a path: the table entry for the text after its last `.`. */
  function ContentType(filePath: string): (t: string)
    ensures '.' !in filePath ==> t == "application/octet-stream"
  {
    match LastIndexOf(filePath, '.')
    case None => "application/octet-stream"
    case Some(i) => MimeType(filePath[i + 1..])
  }

  /**
   * `sendFile(filePath)`. A file that cannot be opened gives 404 "not
   * found"; one whose read fails, 500 "internal server error"; both bodies
   * are set through `send`. A file read whole becomes the body, with
   * Content-Length and a Content-Type from its extension, and the status
   * stays as it was.
   */
  function FileSent(r: ResponseValue, fs: FileSystem, filePath: string): (s: ResponseValue)
    ensures filePath !in fs ==>
      s == Sent(r.(statusCode := 404, statusMessage := "not found"), "<h1>404 not found</h1>")
    ensures filePath in fs && fs[filePath].Unreadable? ==>
      s == Sent(r.(statusCode := 500, statusMessage := "internal server error"), "<h1>500 internal server error</h1>")
    ensures filePath in fs && fs[filePath].Readable? ==>
      && s.statusCode == r.statusCode && s.statusMessage == r.statusMessage
      && s.body == fs[filePath].bytes
      && ToMap(s.headers) == ToMap(r.headers)
           ["Content-Length" := NatToString(|s.body|)]["Content-Type" := ContentType(filePath)]
  {
    if filePath !in fs then
      Sent(r.(statusCode := 404, statusMessage := "not found"), "<h1>404 not found</h1>")
    else
      match fs[filePath]
      case Unreadable =>
        Sent(r.(statusCode := 500, statusMessage := "internal server error"), "<h1>500 internal server error</h1>")
      case Readable(bytes) =>
        var lengthSet := Put(r.headers, "Content-Length", NatToString(|bytes|));
        r.(body := bytes, headers := Put(lengthSet, "Content-Type", ContentType(filePath)))
  }

  // ------------------------------------------------------------ properties

  /** After `send`, Content-Length reads back as the length of the body. */
  lemma SentLength(r: ResponseValue, content: string)
    ensures Header(Sent(r, content), "Content-Length") == Some(NatToString(|content|))
    ensures DecimalValue(Header(Sent(r, content), "Content-Length").value) == |content|
    ensures LengthConsistent(Sent(r, content))
  {
    DecimalRoundTrip(|content|);
  }

  /** Every branch of `sendFile` leaves Content-Length equal to the body length. */
  lemma FileSentLength(r: ResponseValue, fs: FileSystem, filePath: string)
    ensures LengthConsistent(FileSent(r, fs, filePath))
    ensures Header(FileSent(r, fs, filePath), "Content-Length").Some?
  {
    var s := FileSent(r, fs, filePath);
    assert ToMap(s.headers)["Content-Length"] == NatToString(|s.body|);
  }

  /** A fresh response has no Content-Length, so it is consistent too. */
  lemma InitialConsistent()
    ensures LengthConsistent(Initial())
    ensures Header(Initial(), "Content-Length").None?
  {
  }

  /** Changing the status or any other header leaves the body length consistent. */
  lemma OtherChangesKeepLength(r: ResponseValue, code: int32, message: string, key: string, value: string)
    requires LengthConsistent(r)
    requires key != "Content-Length"
    ensures LengthConsistent(r.(statusCode := code, statusMessage := message))
    ensures LengthConsistent(r.(headers := Put(r.headers, key, value)))
  {
    var s := r.(headers := Put(r.headers, key, value));
    assert ToMap(s.headers) == ToMap(r.headers)[key := value];
  }

  /** The content type depends only on the text after the last `.`. */
  lemma ContentTypeOfExtension(stem: string, ext: string)
    requires '.' !in ext
    ensures ContentType(stem + "." + ext) == MimeType(ext)
  {
    var p := stem + "." + ext;
    assert p[|stem|] == '.';
    assert p[|stem| + 1..] == ext;
  }

  /** The extension table compares exactly: upper case is not recognised. */
  lemma ExtensionCaseSensitive()
    ensures MimeType("HTML") == "application/octet-stream"
    ensures MimeType("html") == "text/html"
  {
  }

  /** A dot in a directory name yields an "extension" holding a `/`, which the table never knows. */
  lemma DottedDirectory(stem: string, ext: string)
    requires '.' !in ext && '/' in ext
    ensures ContentType(stem + "." + ext) == "application/octet-stream"
  {
    ContentTypeOfExtension(stem, ext);
  }

  /** The local `contentType` of `sendFile`, reassigned through the if/else chain. */
  method ChooseContentType(filePath: string) returns (contentType: string)
    ensures contentType == ContentType(filePath)
  {
    contentType := "application/octet-stream";
    var dotPos := LastIndexOf(filePath, '.');
    if dotPos.Some? {
      var ext := filePath[dotPos.value + 1..];
      if ext == "html" || ext == "htm" {
        contentType := "text/html";
      } else if ext == "css" {
        contentType := "text/css";
      } else if ext == "js" {
        contentType := "application/javascript";
      } else if ext == "json" {
        contentType := "application/json";
      } else if ext == "jpg" || ext == "jpeg" {
        contentType := "image/jpeg";
      } else if ext == "png" {
        contentType := "image/png";
      } else if ext == "gif" {
        contentType := "image/gif";
      } else if ext == "svg" {
        contentType := "image/svg+xml";
      } else if ext == "ico" {
        contentType := "image/x-icon";
      } else if ext == "pdf" {
        contentType := "application/pdf";
      }
    }
  }

  // ---------------------------------------------------------- the object

  /** The mutable response handed to handlers and to the static file branch. */
  class HttpResponse {
    var statusCode: int32
    var statusMessage: string
    var headers: Entries
    var body: string

    function Value(): ResponseValue
      reads this
    {
      ResponseValue(statusCode, statusMessage, headers, body)
    }

    /** The default constructor: 200 "OK", Content-Type text/html. */
    constructor ()
      ensures Value() == Initial()
    {
      statusCode := 200;
      statusMessage := "OK";
      body := "";
      headers := Put([], "Content-Type", "text/html");
    }

    method SetStatus(code: int32, message: string)
      modifies this
      ensures statusCode == code && statusMessage == message
      ensures headers == old(headers) && body == old(body)
    {
      statusCode := code;
      statusMessage := message;
    }

    /** `headers[key] = value`: only that key changes. */
    method SetHeader(key: string, value: string)
      modifies this
      ensures headers == Put(old(headers), key, value)
      ensures ToMap(headers) == old(ToMap(headers))[key := value]
      ensures statusCode == old(statusCode) && statusMessage == old(statusMessage) && body == old(body)
    {
      headers := Put(headers, key, value);
    }

    method Send(content: string)
      modifies this
      ensures Value() == Sent(old(Value()), content)
    {
      body := content;
      SetHeader("Content-Length", NatToString(|body|));
    }

    /** `sendFile`: the open, the read, and the if/else chain over the extension. */
    method SendFile(fs: FileSystem, filePath: string)
      modifies this
      ensures Value() == FileSent(old(Value()), fs, filePath)
    {
      if filePath !in fs {
        SetStatus(404, "not found");
        Send("<h1>404 not found</h1>");
        return;
      }
      match fs[filePath] {
        case Readable(bytes) =>
          body := bytes;
          SetHeader("Content-Length", NatToString(|body|));
          var contentType := ChooseContentType(filePath);
          SetHeader("Content-Type", contentType);
        case Unreadable =>
          SetStatus(500, "internal server error");
          Send("<h1>500 internal server error</h1>");
      }
    }

    /** Overwrite the whole response: the effect of a handler, given as the value it leaves. */
    method Assign(v: ResponseValue)
      modifies this
      ensures Value() == v
    {
      statusCode, statusMessage, headers, body := v.statusCode, v.statusMessage, v.headers, v.body;
    }
  }
}
