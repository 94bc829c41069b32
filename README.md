# squirrel, modelled in Dafny

squirrel is a small C++ HTTP/1.1 server library. An application registers
GET handlers by exact path and can name a static directory. For each
connection, the server reads one request and parses it into an
`HttpRequest`. It picks one answer and serialises the `HttpResponse` back
to the client. This project models that request and response pipeline
with the sockets and threads stripped away, and proves what each step
promises.

- **`text.dfy`** (module `Text`) holds the text primitives the server
  builds on:
  - `trim`;
  - `std::string::find` and `rfind`;
  - `std::getline` over an `std::istringstream`, as `GetLine` and `Split`;
  - `operator>>` into a `std::string`, as `NextToken`;
  - `std::to_string`, as `NatToString`, and its decimal read-back.
- **`url.dfy`** (module `Url`) models `urlDecode`.
  - `std::stoi(hex, nullptr, 16)` on the two characters after a `%` is
    modelled with strtol's rules (leading whitespace, sign, partial hex).
  - Its exception on text in which strtol finds no number (no hex digit
    after optional whitespace and one sign) is `Failure(InvalidHexEscape)`.
  - A number read from only part of the two characters still uses up
    both, so "%4G" decodes to the byte 4 and the `G` is lost.
- **`ordered_map.dfy`** (module `OrderedMap`) models a
  `std::map<std::string, std::string>`.
  - It is a list of entries whose keys strictly increase under
    `std::string`'s `operator<`.
  - `Put` is `m[k] = v`, and iterating over the list visits the keys in
    order, each once.
- **`request.dfy`** (module `Request`) models `HttpRequest` and
  `Server::parseRequest`.
  - `RequestOf` states what the parser produces.
  - `ParseRequest` and its loops (`ReadQuery`, `ReadHeaders` and `ReadBody`)
    are the parser itself, proved to produce exactly `RequestOf`.
- **`response.dfy`** (module `Response`) models `HttpResponse`.
  - `Initial`, `Sent` and `FileSent` state what the constructor, `send`
    and `sendFile` make of a response value.
  - The class `HttpResponse` holds the mutable fields. Its methods are
    proved to follow those functions.
- **`wire.dfy`** (module `Wire`) models the text `Server::sendResponse`
  builds.
  - `WireFormat` states it, and `SerializeResponse` is the
    `std::ostringstream` loop.
  - As a partner, `WireReadBack` shows that the server's own parser reads
    the header lines back as the header map, under two conditions.
    - Every header name and value must be clean: non-empty, with no
      whitespace at either end, and no `\n`. A name must also hold no `:`.
    - The status message must hold no `\n`.
  - The status message needs no other condition. The parser takes only
    its first word, as the version word, and never decodes it. The only
    word it decodes is the target, which here is the status code's text:
    decimal digits, after a `-` when the code is negative.
  - The header conditions matter. An empty value, as from
    `setHeader("X", "")`, is written as `X: \r`. `trim` returns an
    all-whitespace string unchanged, so the parser reads that value back as
    `" \r"`.
- **`server.dfy`** (module `Server`) models the route table, the static
  directory and `Server::processRequest`.
  - `Dispatch` states which branch answers.
  - The class `Server` holds the state that `get` and `setStaticDir`
    change, and its `ProcessRequest` is proved to follow `Dispatch`.

Modelling choices:
- **Strings** are `seq<char>`, with one `char` per byte of a `std::string`.
- **The filesystem** is a parameter: a map from path to `Readable(bytes)`
  or `Unreadable`.
  - A path is in the map when `std::ifstream` can open it.
  - `Unreadable` is a file that opens but whose `read` fails.
- **A handler** is a function from the request and the response it is
  given to the response it leaves.
- **The platform**, set by `#ifdef _WIN32`, is a constant of the `Server`
  object.
- **The status code** is a 32-bit `int32`.

Two cases where the code throws an exception are modelled as a failure
value, and the exception is not caught anywhere:
- an escape that `std::stoi` rejects (`Failure(InvalidHexEscape)`);
- `substr(1)` of an empty path (`DispatchAsWritten`, see Findings).

Either exception would end the process through `std::terminate`.
- **The malformed escape** follows the code: `UrlDecode`, `ParseRequest`
  and `RequestOf` all return the failure, and nothing answers the request.
  `DecodeBadEscape`, `QueryFieldFails`, `QueryOfFails` and
  `BadQueryRejected` prove this step by step. One could read a bad escape
  as a per-request parse error; the source does not say so, and the model
  does not assume it.
- **The empty path** has two versions.
  - `FileTargetAsWritten` and `DispatchAsWritten` follow the code and fail.
  - `FileTarget`, `Dispatch` and the class's `ProcessRequest` answer 404
    for it, treating the empty path as naming no file. The evidence that
    an unresolvable path is meant to answer 404 is the code itself: the
    fallback at src/squirrel.cpp:305-306 and the missing-file branch at
    src/squirrel.hpp:63-64.

## Model

| member | source | states |
|---|---|---|
| Text.Trim | src/squirrel.cpp:10-19 | an empty or all-whitespace string comes back unchanged; otherwise the result is a non-empty contiguous slice with non-space first and last characters, and only whitespace around it |
| Text.TrimSurrounded | src/squirrel.cpp:10-19 | text with non-space ends, padded on both sides with space/tab/CR/LF, trims back to exactly that text |
| Text.TrimIdempotent | src/squirrel.cpp:10-19 | trimming a trimmed string changes nothing |
| Text.IndexOf | src/squirrel.cpp:226 | `find(c)`: none exactly when `c` is absent, otherwise a position holding `c` with no `c` before it |
| Text.LastIndexOf | src/squirrel.hpp:75 | `rfind(c)`: none exactly when `c` is absent, otherwise a position holding `c` with no `c` after it |
| Text.GetLine | src/squirrel.cpp:223 | one `getline` reads a piece free of the delimiter; the text is the piece, the delimiter and the rest, or just the piece when there is no delimiter |
| Text.Split | src/squirrel.cpp:233 | repeated `getline` reads no piece exactly when the text is empty |
| Text.SplitPieces | src/squirrel.cpp:233 | no piece holds the delimiter, and a character absent from the text is absent from every piece |
| Text.SplitJoin | src/squirrel.cpp:256-259 | re-joining the pieces, each followed by the delimiter, gives the text back, with one delimiter added when it did not end in one |
| Text.JoinAppend | src/squirrel.cpp:256-259 | joining two runs of pieces is joining each and concatenating |
| Text.SplitJoinTerminated | src/squirrel.cpp:244-259 | pieces free of the delimiter, each terminated, then more text: `getline` reads those pieces first, then the pieces of the rest |
| Text.SplitTerminated | src/squirrel.cpp:244 | one terminated piece free of the delimiter is exactly what one `getline` reads |
| Text.NextToken | src/squirrel.cpp:225 | `>>` reads "" exactly when only whitespace is left, and then leaves nothing; otherwise a word without whitespace after a whitespace prefix, and the rest starts with whitespace |
| Text.NextTokenAt | src/squirrel.cpp:225 | a word followed by whitespace or nothing is read back whole, leaving that rest |
| Text.TokenWithin | src/squirrel.cpp:225 | a character absent from the line is absent from the word read and from what is left |
| Text.NatToString | src/squirrel.hpp:56 | `std::to_string` of a length: non-empty decimal digits with no leading zero |
| Text.DecimalRoundTrip | src/squirrel.hpp:56 | the digits of `std::to_string(n)` read back as `n` |
| Text.IntToString | src/squirrel.cpp:266 | `oss << statusCode`: non-empty, starting with `-` exactly for a negative code, with the decimal digits of the magnitude after the sign |
| Text.IntToStringRoundTrip | src/squirrel.cpp:266 | the status code text reads back as the code: its digits give the magnitude, and a leading `-` negates it |
| Text.NatToStringInjective | src/squirrel.hpp:56 | different lengths give different Content-Length texts |
| Url.HexValue | src/squirrel.cpp:29-30 | `std::stoi` base 16 on two characters, case by case: two hex digits give 16·hi+lo; a hex digit then a non-digit gives the first digit; whitespace or `+` then a digit gives that digit; `-` then a digit gives its negation; none (the exception) exactly when no number starts the text; any value lies in -15..255 |
| Url.ByteChar | src/squirrel.cpp:30 | `static_cast<char>` keeps the low byte: the value modulo 256, so -1 is 255 and a value in 0..255 is itself |
| Url.PercentDecoded | src/squirrel.cpp:20-49 | the decoded text is never longer than the input; DecodeWithoutPercent, DecodeEscape (any escape `std::stoi` reads, in full or in part), DecodeTrailingPercent and DecodeBadEscape state its cases, the failure included |
| Url.UrlDecode | src/squirrel.cpp:20-49 | the index loop, with its jump of two after an escape, returns exactly PercentDecoded of its input |
| Url.DecodeWithoutPercent | src/squirrel.cpp:39-46 | without `%`, decoding succeeds, keeps the length, turns each `+` into a space and keeps every other character |
| Url.DecodeEscape | src/squirrel.cpp:25-33 | a `%` whose next two characters `std::stoi` reads a number from becomes the low byte of that number, and all three characters are consumed, even when the number came from only part of them |
| Url.PartialEscapeExample | src/squirrel.cpp:25-33 | partly parsed escapes: "%4G" gives the byte 4 and loses the `G`, "%-1" gives 255 and "% A" gives 10 |
| Url.PlainPrefix | src/squirrel.cpp:39-46 | a prefix without `%` decodes on its own, each `+` to a space, whatever text follows it |
| Url.DecodeTrailingPercent | src/squirrel.cpp:27-37 | a `%` at either of the last two positions is copied literally, after any prefix without `%` (as in "100%", "ab%c" or "ab%%") |
| Url.DecodeBadEscape | src/squirrel.cpp:25-30 | a `%` followed by two characters in which `std::stoi` finds no hex number fails the whole decoding, after any prefix without `%` and whatever follows |
| Url.PlusExample | src/squirrel.cpp:39-42 | "hello+world" decodes to "hello world" |
| Url.EscapeExample | src/squirrel.cpp:25-33 | "%2Fslash" decodes to "/slash" |
| Url.PercentEncoded | src/squirrel.cpp:20-49 | the inverse: each byte as `%` and two upper-case hex digits, three characters per byte |
| Url.DecodeEncoded | src/squirrel.cpp:20-49 | decoding undoes percent-encoding of every byte string |
| OrderedMap.LessIrreflexive | src/squirrel.hpp:38 | no key is below itself under `std::string`'s `operator<` |
| OrderedMap.LessTransitive | src/squirrel.hpp:38 | the key order is transitive |
| OrderedMap.LessTotal | src/squirrel.hpp:38 | any two different keys are ordered one way |
| OrderedMap.LessAsymmetric | src/squirrel.hpp:38 | no two keys are each below the other |
| OrderedMap.ToMap | src/squirrel.hpp:38 | the key/value view has exactly the keys of the entries |
| OrderedMap.ToMapAt | src/squirrel.hpp:38 | each entry's value is what the view gives for its key |
| OrderedMap.Lookup | src/squirrel.hpp:38 | `find`, as an ordered search that stops at the first key not below the one sought: it finds a value exactly for the keys of the map, and that value is the map's |
| OrderedMap.Put | src/squirrel.hpp:51 | `m[k] = v` keeps the keys increasing, sets `k` to `v`, leaves every other key as it was, and grows by one entry exactly when `k` was new |
| Request.PathOf | src/squirrel.cpp:226-230 | the path is the target up to its first `?`: a prefix of the target with no `?`, the whole target when it has no `?`, and otherwise followed in the target by a `?` |
| Request.PathOfSplit | src/squirrel.cpp:226-230 | a target made of a `?`-free path, a `?` and any query is cut back to exactly that path |
| Request.FromPairsKeys | src/squirrel.cpp:240 | the map's keys are exactly the keys given |
| Request.FromPairsLastWins | src/squirrel.cpp:240 | the value for a key is the one of its last pair |
| Request.FromPairsValue | src/squirrel.cpp:240 | every entry of the map comes from the last pair for its key |
| Request.QueryField | src/squirrel.cpp:235-241 | a piece gives no parameter exactly when it holds no `=` |
| Request.QueryFieldAtFirstEquals | src/squirrel.cpp:235-239 | only the first `=` separates key from value, and both sides are decoded |
| Request.QueryFailurePersists | src/squirrel.cpp:233-242 | once a piece fails to decode, the whole query fails with that error, whatever follows |
| Request.QueryMapAdd | src/squirrel.cpp:233-242 | a piece that decodes sets its key, overwriting an earlier value |
| Request.QueryMapSkip | src/squirrel.cpp:236 | a piece without `=` is dropped |
| Request.QueryMapFail | src/squirrel.cpp:238-239 | a piece with a malformed escape fails the query whatever comes after it |
| Request.QueryKeyFails | src/squirrel.cpp:236-238 | a piece whose key holds a malformed escape fails with `InvalidHexEscape`, whatever the value |
| Request.QueryFieldFails | src/squirrel.cpp:236-239 | a piece `key=value` whose value holds a malformed escape fails with `InvalidHexEscape`, whatever the key |
| Request.QueryOfAt | src/squirrel.cpp:226-233 | the query of a target is read from the `&`-pieces of what follows its first `?` |
| Request.QueryOfFails | src/squirrel.cpp:226-243 | a target whose first query piece fails to decode has no query map, whatever pieces follow |
| Request.BadQueryRejected | src/squirrel.cpp:218-243 | a request whose target's query fails to decode is not parsed at all: `parseRequest` throws |
| Request.QueryWithoutPercentDecodes | src/squirrel.cpp:226-242 | a target without `%` always yields its query map |
| Request.HeaderField | src/squirrel.cpp:246-251 | a line gives no header exactly when it holds no `:` |
| Request.HeaderFieldAtFirstColon | src/squirrel.cpp:246-251 | only the first `:` separates name from value, and both are trimmed |
| Request.HeaderMapAdd | src/squirrel.cpp:244-253 | a line with a `:` sets its trimmed name, overwriting an earlier value |
| Request.HeaderMapSkip | src/squirrel.cpp:247 | a line without `:` is ignored |
| Request.SectionsSplitAtBlankLine | src/squirrel.cpp:244-259 | the headers end at the first line that is exactly "\r", and the body is everything after it |
| Request.NoBlankLineNoBody | src/squirrel.cpp:244-259 | without a "\r" line every line is a header line and the body is empty |
| Request.RequestLine | src/squirrel.cpp:223-225 | missing words are "": no target without a method, no version without a target, no whitespace in any word |
| Request.RequestLineWords | src/squirrel.cpp:223-225 | three words separated by spaces are read back as method, target and version |
| Request.ParsedPathHasNoQuery | src/squirrel.cpp:226-230 | after parsing, the path holds no `?` |
| Request.RequestLineNeverRejected | src/squirrel.cpp:223-243 | parsing never rejects a request for its shape: with no `%` in the request line it always succeeds |
| Request.ReadParam | src/squirrel.cpp:235-241 | one iteration of the query loop computes QueryField of the piece |
| Request.ReadQuery | src/squirrel.cpp:229-242 | the query loop computes the last-wins map of the decoded `key=value` pieces, or the first decode failure |
| Request.ReadHeaders | src/squirrel.cpp:244-253 | the header loop computes the last-wins map of the lines before the first "\r" line and leaves the stream just after that line |
| Request.ReadBody | src/squirrel.cpp:254-259 | the body loop builds every remaining line followed by "\n" |
| Request.RequestOf | src/squirrel.cpp:218-262 | what `parseRequest` produces: the three words of the first line, the path and query of the target, the header map and the trimmed body, or the query's decode failure. ParseRequestText, ParsedPathHasNoQuery and RequestLineNeverRejected state its properties |
| Request.ParseRequest | src/squirrel.cpp:218-262 | the parser returns exactly RequestOf of its input |
| Request.ParseRequestText | src/squirrel.cpp:218-262 | a request written as a request line, header lines, "\r" and a body parses back into the three words, the header map of those lines, and the trimmed body; it fails exactly when the query fails to decode |
| Request.RequestTextLines | src/squirrel.cpp:221-259 | the lines `getline` reads from such a request are the request line, the header lines, "\r", then the body's lines |
| Response.Initial | src/squirrel.hpp:40-43 | a fresh response is 200 "OK" with an empty body and exactly one header, Content-Type: text/html |
| Response.HttpResponse.constructor | src/squirrel.hpp:40-43 | the constructed object holds Initial |
| Response.InitialConsistent | src/squirrel.hpp:40-43 | a fresh response has no Content-Length |
| Response.HttpResponse.SetStatus | src/squirrel.hpp:44-48 | only the status code and message change |
| Response.HttpResponse.SetHeader | src/squirrel.hpp:49-52 | only `headers[key]` changes; every other header keeps its value |
| Response.Sent | src/squirrel.hpp:53-57 | `send(c)`: the body becomes `c`, Content-Length its decimal length; status and every other header unchanged |
| Response.HttpResponse.Send | src/squirrel.hpp:53-57 | the object ends up holding Sent of what it held |
| Response.SentLength | src/squirrel.hpp:53-57 | after `send`, Content-Length reads back as the body length |
| Response.OtherChangesKeepLength | src/squirrel.hpp:44-52 | changing the status or another header keeps Content-Length consistent with the body |
| Response.MimeType | src/squirrel.hpp:79-98 | the extension table: exact, case-sensitive comparisons, with application/octet-stream for anything else. ExtensionCaseSensitive and ContentTypeOfExtension state its properties |
| Response.ContentType | src/squirrel.hpp:74-99 | a path without `.` is application/octet-stream |
| Response.ChooseContentType | src/squirrel.hpp:74-99 | the if/else chain over the extension computes ContentType of the path |
| Response.ContentTypeOfExtension | src/squirrel.hpp:75-78 | the type depends only on the text after the last `.` of the whole path |
| Response.ExtensionCaseSensitive | src/squirrel.hpp:79-98 | "HTML" is application/octet-stream, "html" is text/html |
| Response.DottedDirectory | src/squirrel.hpp:75-78 | an "extension" holding a `/` (from a dotted directory) is application/octet-stream |
| Response.FileSent | src/squirrel.hpp:58-108 | a file that cannot be opened gives 404 "not found" and one whose read fails gives 500, both through `send`; a file read whole becomes the body with Content-Length and Content-Type, status unchanged |
| Response.HttpResponse.SendFile | src/squirrel.hpp:58-108 | the object ends up holding FileSent of what it held |
| Response.FileSentLength | src/squirrel.hpp:53-73 | every branch of `sendFile` leaves Content-Length equal to the body length |
| Response.HttpResponse.Assign | src/squirrel.cpp:284 | the object ends up holding exactly what the handler left |
| Wire.WireFormat | src/squirrel.cpp:265-273 | the text `sendResponse` sends: the status line, one `Key: Value` line per header in key order, a blank line, then the body. WireShape and WireReadBack state its properties |
| Wire.SerializeResponse | src/squirrel.cpp:265-273 | the stream loop builds exactly WireFormat: status line, one `Key: Value` line per header in key order, a blank line, the body |
| Wire.WireShape | src/squirrel.cpp:266-272 | the text starts with the status line and ends with the body unchanged |
| Wire.HeaderBlockLines | src/squirrel.cpp:267-270 | the header block is the header lines, each followed by "\n" |
| Wire.HeaderLineReadBack | src/squirrel.cpp:269 | the parser's header rule recovers a clean entry from the line written for it |
| Wire.EmptyValueNotReadBack | src/squirrel.cpp:269 | an empty header value is not read back: the parser gets `" \r"` from the line `X: \r`, because `trim` keeps all-whitespace text as it is |
| Wire.HeaderLineSingle | src/squirrel.cpp:269 | a clean entry's line is one line and not the blank line |
| Wire.HeaderPairsReadBack | src/squirrel.cpp:267-270 | the header rule recovers all clean entries, in order |
| Wire.IncreasingFromPairs | src/squirrel.cpp:267-270 | for increasing keys the last-wins map is the entries' map |
| Wire.StatusLineClean | src/squirrel.cpp:266 | the status line holds no `\n` when its message holds none |
| Wire.StatusCodeWord | src/squirrel.cpp:266 | read as a request line, the status line's second word is the status code's text, which holds no `%` or `?` |
| Wire.WireReadBack | src/squirrel.cpp:263-273 | when every header name and value is non-empty, has no whitespace at either end and holds no `\n`, no name holds `:`, and the status message holds no `\n`, the server's own parser reads the response text without failing and gets back exactly the header map |
| Server.NormalizedDir | src/squirrel.cpp:143-154 | an empty directory stays empty; any other ends with `/` or `\` and extends the given one by at most one separator |
| Server.NormalizedDirAppends | src/squirrel.cpp:146-152 | a separator is appended exactly when the directory is non-empty and ends in neither, and then it is the platform's |
| Server.NormalizedDirIdempotent | src/squirrel.cpp:143-154 | setting the stored directory again changes nothing, on either platform |
| Server.Server.constructor | src/squirrel.cpp:50-55 | a new server has its port, no routes and no static directory |
| Server.Server.Get | src/squirrel.cpp:138-142 | `routes[path]` becomes the handler; every other route and the directory are unchanged |
| Server.Server.SetStaticDir | src/squirrel.cpp:143-154 | the stored directory is NormalizedDir of the argument; routes unchanged |
| Server.FileTarget | src/squirrel.cpp:289-297 | corrected: the file path extends the static directory, and it is missing exactly for the empty path, where line 296 throws instead |
| Server.MethodNotAllowed | src/squirrel.cpp:308-313 | 405 "method not allowed" with the fixed body; the headers gain Allow: GET and the body's Content-Length, and keep everything else |
| Server.NotFound | src/squirrel.cpp:305-306 | 404 "not found" with a body naming the path; the headers gain its Content-Length and keep everything else |
| Server.Dispatch | src/squirrel.cpp:276-314 | corrected: the branch `processRequest` takes, in the source's order: non-GET, route, readable static file, 404. NonGetRefused, RouteWins, StaticFileServed, NotFoundNamesPath and DispatchLengthConsistent state its properties |
| Server.Server.ProcessRequest | src/squirrel.cpp:276-314 | the response ends up holding Dispatch of the request and the response it held |
| Server.NonGetRefused | src/squirrel.cpp:308-313 | any method but GET gives 405 "method not allowed" with Allow: GET, the fixed body and its Content-Length, whatever the path, routes, directory and files |
| Server.RouteWins | src/squirrel.cpp:281-286 | a GET on a route answers with that route's handler; the static directory and the files play no part |
| Server.RouteRegistered | src/squirrel.cpp:281-286 | after `get(path, h)` a GET on `path` runs `h`, and every other path answers as before |
| Server.StaticFileServed | src/squirrel.cpp:287-303 | a readable file at directory + path without its first character is served whole, status unchanged, with its Content-Type and Content-Length |
| Server.IndexServed | src/squirrel.cpp:290-293 | "/" serves `index.html` of the directory as text/html |
| Server.StaticFileUnreadable | src/squirrel.cpp:298-302 | a file that opens but cannot be read gives 500 through `sendFile` |
| Server.NotFoundNamesPath | src/squirrel.cpp:305-306 | a GET that no route or file serves is 404 "not found" and its body holds the path at its place |
| Server.DispatchLengthConsistent | src/squirrel.cpp:288-313 | every branch but a handler leaves Content-Length equal to the body length |
| Server.EmptyPathNotFound | src/squirrel.cpp:287-306 | corrected: a GET for the empty path with no route "" is 404 "not found" with a consistent Content-Length, whether or not a static directory is set |
| Server.DispatchAsWritten | src/squirrel.cpp:276-314 | `processRequest` as written: it fails exactly for a GET of the empty path with a static directory set and no route "" |
| Server.FileTargetAsWritten | src/squirrel.cpp:290-297 | as written, building the file path fails exactly for the empty path |
| Server.AsWrittenDiffersOnlyOnEmptyPath | src/squirrel.cpp:287-306 | the code as written throws exactly for a GET for "" with a directory set and no route ""; everywhere else it answers as Dispatch does, and there Dispatch answers 404 |
| Server.QueryOnlyTargetParsed | src/squirrel.cpp:223-230 | a request whose target is only a query parses with the empty path |
| Server.EmptyPathReachable | src/squirrel.cpp:296 | such a GET reaches `substr(1)` of "" when a static directory is set |
| Server.EmptyPathExample | src/squirrel.cpp:296 | "GET ?a=b HTTP/1.1" is such a request |

## Left out

- **Sockets and the server's lifecycle** are not modelled: `Server::start`, `Server::stop`, `acceptConnections`, `handleClient`, the `recv` and `send` calls, the Winsock init and cleanup, and the destructor. They are operating-system I/O. That leaves out the 4095-byte cap on one `recv` and the truncation at a NUL byte.
- **The accept thread, the detached client threads and `m_handlersMutex`** are not modelled, because the model is sequential and the route table is just a map.
- **Real file I/O** through `std::ifstream`, `tellg`, `seekg` and `read` is replaced by the filesystem parameter. `processRequest` and `sendFile` each open the file, and both opens see the same filesystem. So a file vanishing between the two opens is not modelled.
- **Logging** to `std::cout` and `std::cerr` is not modelled.
- **`examples/1/main.cpp`** is not part of this model. It only registers handlers and sleeps.
- **Handlers** are functions from the request and response to a new response. A handler that throws, blocks or keeps a reference is not modelled.
- Url.ByteChar: takes the low byte of the parsed value in every case. Converting a value outside `char`'s range, such as 128..255 from "%C3" or "%FF" when `char` is signed, is implementation-defined before C++20. The model takes that case to give the low byte too. Values in -15..-1 fit in a signed `char`, and wrap modulo 256 into an unsigned one, so their conversion is well defined either way.
- Server.Server.ProcessRequest: is proved against the corrected Dispatch, which answers 404 for the empty path. The source's `substr(1)` exception is modelled separately as `DispatchAsWritten`.
- Request.ParseRequest: a malformed escape gives `Failure`. In the source the exception is uncaught and ends the process. The model does not say what happens after that.

## Findings

| source | as written | input that shows it | evidently intended | confidence | as-written member | corrected member |
|---|---|---|---|---|---|---|
| src/squirrel.cpp:296 | `request.path.substr(1)` runs for every GET path but "/" once a static directory is set and no route matches, and `substr(1)` of the empty string throws `std::out_of_range`; nothing catches it, so the process terminates | the request line "GET ?a=b HTTP/1.1" (path ""), with a static directory set and no route "" | an empty path names no file and is answered 404 "not found" | not executed | Server.EmptyPathExample | Server.EmptyPathNotFound |
