# A verified model of a small Java HTTP server

This project models the request and response path of a small HTTP server. The server reads at most 4096 bytes of a connection. It parses the request line and the header block with a hand-written byte search and Java's `String.split`, and it looks query parameters up by name while ignoring case. It then chooses among four outcomes:

- the "Error Request" 404 frame;
- a handler registered for the method and path;
- the "Not Found" 404 frame;
- a static file from `public/`, where `/classic.html` has its `{time}` placeholders filled in.

The repository also holds an earlier server, `ru.netology.Server`. It reads only the request line and answers from the public path list.

The modules follow the source:

- `Seqs` (`seqs.dfy`) holds the byte and character search behind `indexOf`, and Java's `split` and `replace` on literal delimiters.
- `Bytes` (`bytes.dfy`) covers wire bytes, `new String(bytes)`, `getBytes()` of ASCII text, and the decimal rendering of a length.
- `Requests` (`request.dfy`) models `Request.java`. `IndexOf` and `CreateRequest` work on the buffer array. `IndexOf` is proved against the search function `Seqs.FirstMatch`, and `CreateRequest` against the function `Parse`.
- `Responses` (`responses.dfy`) covers the frames of `outContentResponse` and `defaultHandler`. It also defines a client-side reader (`ReadResponse`, `HeaderValue`), and the frames are checked against that reader.
- `Routing` (`server.dfy`) models `Server.java`. The route table is a field of the class `Server`, updated in place by `AddHandler`. The choice `handleConnection` makes is the function `Decide`.
- `NetologyServer` (`netology_server.dfy`) models `ru/netology/Server.java`.

The model takes its collaborators as parameters:

- The input stream is the filled buffer plus the count `read` (-1 at end of stream).
- `URLEncodedUtils.parse(new URI(path))` is a function parameter. It returns `None` where `new URI` throws.
- The files under `public/` are a map from path to content type and bytes.
- The clock is the timestamp's bytes.
- Handlers are opaque tags. The model says which handler runs and with which request.

## Model

| member | source | states |
|---|---|---|
| Seqs.FirstMatch | src/main/java/Request.java:72-83 | the result is -1 or the least `i` in `[start, max - |t|]` at which `t` occurs; it is -1 exactly when there is no such `i` |
| Seqs.FirstMatchIs | src/main/java/Request.java:72-83 | an occurrence at `k` with none before it is the one found |
| Seqs.FirstMatchPrefix | src/main/java/Request.java:72-83 | the search reads nothing at or beyond `max`: cutting the sequence at any `n >= max` leaves the result unchanged |
| Seqs.SplitAll | src/main/java/Request.java:47 | the list of pieces is never empty, and the first piece is a prefix of the input |
| Seqs.DropTrailingEmpty | src/main/java/Request.java:47 | only a trailing run of empty pieces is dropped, and what is kept does not end in an empty piece |
| Seqs.JoinSplitAll | src/main/java/Request.java:47 | splitting loses nothing: the pieces joined with the delimiter give the input back |
| Seqs.SplitAllPiecesFree | src/main/java/Request.java:47 | no piece contains the delimiter |
| Seqs.SplitAllJoin | src/main/java/Request.java:68 | pieces free of the delimiter's first element, once joined, split back into the same pieces |
| Seqs.SplitJoin | src/main/java/Request.java:68 | round trip for Java's split: joined pieces split back into themselves when none holds the delimiter's first element and the last is not empty |
| Seqs.Split | src/main/java/Request.java:47 | Java's `split` with limit 0: with no occurrence of the delimiter the result is the input alone (even an empty one); otherwise trailing empty pieces are dropped and only those, so the result is empty or ends in a non-empty piece |
| Seqs.SplitAllSingle | src/main/java/Request.java:47 | there is more than one piece exactly when the delimiter occurs, and a single piece is the whole input |
| Seqs.SplitAllFirstPiece | src/main/java/Server.java:52 | the first piece of a split is the text before the first occurrence of the delimiter, or all of it |
| Seqs.Replace | src/main/java/Server.java:91-94 | `replace` leaves a text with no occurrence of the target unchanged |
| Seqs.ReplaceIsJoin | src/main/java/Server.java:91-94 | `replace` cuts the text at the leftmost non-overlapping occurrences of the target and joins the pieces with the replacement |
| Seqs.JoinDelimiterGap | src/main/java/Request.java:59-61 | inside lines joined with CRLF (none empty, none holding CR) there is no CRLFCRLF |
| Seqs.FirstDelimiterEndsPiece | src/main/java/Request.java:42-43 | the first CRLF of a text ends its first line when that line holds no CR |
| Seqs.JoinGapped | src/main/java/Request.java:59-61 | in lines joined with CRLF, where no line is empty or holds a CR, every CR is followed two places later by something other than a CR |
| Seqs.FirstDoubleDelimiterAfter | src/main/java/Request.java:59-61 | when such a block is followed by CRLFCRLF, the first CRLFCRLF found from the block's start is the one that closes it |
| Seqs.FirstMatchWiden | src/main/java/Request.java:72-83 | a match found before `max` is still the first one when the search runs on to a larger bound |
| Bytes.Decode | src/main/java/Request.java:47 | `new String(bytes)` keeps the length and maps each byte to the character with that code |
| Bytes.Ascii | src/main/java/Server.java:77-82 | `getBytes()` of ASCII text keeps the length and decodes back to the text |
| Bytes.AsciiConcat | src/main/java/Server.java:77-82 | encoding a concatenation is concatenating the encodings |
| Bytes.DecodeMatches | src/main/java/Request.java:43 | a byte pattern occurs exactly where its decoded text occurs |
| Bytes.FirstMatchDecode | src/main/java/Request.java:43 | searching the bytes finds what searching the decoded text finds |
| Bytes.Decimal | src/main/java/Server.java:98 | the rendered length is a non-empty string of digits with no leading zero |
| Bytes.DecimalRoundTrip | src/main/java/Server.java:98 | reading the rendered digits back gives the number |
| Requests.IndexOf | src/main/java/Request.java:72-83 | the nested loops return exactly `FirstMatch`: -1 or the least match in `[start, max - |target|]`, and every array read lies in `[start, max)` |
| Requests.Parse | src/main/java/Request.java:36-71 | with no CRLF in the first `read` bytes (including `read == -1`) the result is null; an accepted request has method GET or POST, a path starting with `/`, and the parameters the query parser gives for that path |
| Requests.CreateRequest | src/main/java/Request.java:36-71 | the buffer-and-IndexOf version returns what `Parse` specifies |
| Requests.ParseNeedsThreeTokens | src/main/java/Request.java:47-50 | a request line that does not split on single spaces into exactly three tokens gives null |
| Requests.ParseNeedsKnownMethod | src/main/java/Request.java:51-54 | a first token other than GET or POST gives null |
| Requests.ParseNeedsAbsolutePath | src/main/java/Request.java:55-58 | a second token not starting with `/` gives null |
| Requests.ParseNeedsHeaderTerminator | src/main/java/Request.java:59-64 | with no CRLFCRLF starting at or after the end of the request line's CRLF, the result is null |
| Requests.ParseRejectsNoHeaderLines | src/main/java/Request.java:59-64 | a request line followed directly by a blank line (`GET / HTTP/1.1\r\n\r\n`) gives null |
| Requests.ParseAccepts | src/main/java/Request.java:65-70 | once every check passes, method and path are tokens 0 and 1 unchanged, the headers are the bytes between the two terminators split on CRLF, and a URI error is thrown rather than returned |
| Requests.ParseWellFormed | src/main/java/Request.java:36-71 | round trip: the bytes of a well-formed request (any trailing spaces after the version, one or more header lines), followed by any further bytes such as a body, parse back into its method, path and header lines |
| Requests.ParseIgnoresRest | src/main/java/Request.java:41-64 | once the request line and the header block have been found among the first `read` bytes, reading more bytes gives the same result |
| Requests.RequestLineTokens | src/main/java/Request.java:47-50 | `method path version` followed by any number of spaces splits into exactly those three tokens |
| Requests.SearchDecoded | src/main/java/Request.java:43 | searching the first `read` bytes is searching their decoded text |
| Requests.GetQueryParam | src/main/java/Request.java:85-98 | the first parameter whose name equals the given one ignoring case; if none matches, the pair of that name and `""` |
| Requests.EqualsIgnoreCase | src/main/java/Request.java:87 | `equalsIgnoreCase` holds for equal strings and never for strings of different lengths |
| Requests.EqualsIgnoreCaseIsUpperEqual | src/main/java/Request.java:87 | two names are equal ignoring case exactly when their upper-case forms are equal |
| Requests.GetQueryParamIgnoresCase | src/main/java/Request.java:85-98 | names that are equal ignoring case look up the same value |
| Responses.ContentResponse | src/main/java/Server.java:76-84 | the status frame starts with `HTTP/1.1 ` and the code |
| Responses.ContentResponseLayout | src/main/java/Server.java:77-82 | the status frame is the lines `HTTP/1.1 <code> <status>`, `Content-Length: 0` and `Connection: close`, then a blank line |
| Responses.ContentResponseReads | src/main/java/Server.java:76-84 | a client reads that status line and those two headers and no body, and the declared length, 0, is the body's |
| Responses.FileResponse | src/main/java/Server.java:95-102 | the `200 OK` frame ends with the body it announces |
| Responses.FileResponseLayout | src/main/java/Server.java:95-102 | the frame is the status line, content type, length and `Connection: close` lines, a blank line, then the body |
| Responses.FileResponseReads | src/main/java/Server.java:95-102 | a client reads `HTTP/1.1 200 OK`, the three header lines and exactly the body |
| Responses.MimeText | src/main/java/Server.java:97 | string concatenation renders an unknown (`null`) content type as the text `null`, and a known one as itself |
| Responses.FileHeadersDeclare | src/main/java/Server.java:107-113 | the headers declare the content type (`null` when it is unknown), and a `Content-Length` whose digits count the body's bytes |
| Responses.DefaultHandler | src/main/java/Server.java:86-116 | a frame is written exactly when the file can be read |
| Responses.ReadHead | src/main/java/Server.java:77-82 | a head of readable lines followed by a body reads back as those lines and that body |
| Responses.HeaderValue | src/main/java/Server.java:97-98 | the value found belongs to a header line `name: value`, and none means no line starts with `name: ` |
| Responses.ReplaceCutsAtTarget | src/main/java/Server.java:90-94 | the substituted page is the template's pieces between `{time}` placeholders joined with the timestamp; the same pieces joined with `{time}` are the template, and no piece holds `{time}` |
| Responses.ClassicPage | src/main/java/Server.java:89-104 | `/classic.html` is served as `200 OK` with its template's `{time}` substituted as the body and a `Content-Length` for that substituted body |
| Responses.StaticPage | src/main/java/Server.java:106-115 | any other public file is served as `200 OK` with its own bytes as the body and its size as `Content-Length` |
| Routing.Route | src/main/java/Server.java:51-54 | the two-level lookup finds a handler exactly when the method has an inner table holding the path, and then it is the handler stored there |
| Routing.Register | src/main/java/Server.java:69-74 | after registration the route gives the new handler; every other (method, path) route is unchanged; the method's inner table is created only when missing; no other key appears |
| Routing.RegisterReplaces | src/main/java/Server.java:73 | registering the same method and path again replaces the earlier handler |
| Routing.RegisterCommutes | src/main/java/Server.java:69-74 | registrations under different keys can be made in either order |
| Routing.QueryFreePrefix | src/main/java/Server.java:52 | `split("\\?")` of a path starting with `/` has a first element, and it is the prefix before the first `?` |
| Routing.RoutePath | src/main/java/Server.java:52 | the route key is a prefix of the path with no `?` that stops at the first `?` or at the end |
| Routing.RoutePathDropsQuery | src/main/java/Server.java:52 | `p` and `p?query` have the same route key `p` |
| Routing.Serve | src/main/java/Server.java:60 | calling `defaultHandler` throws exactly when the file cannot be read, and it never calls a handler |
| Routing.Decide | src/main/java/Server.java:46-62 | a handler is called only for an accepted request, and with that request |
| Routing.ErrorRequestFirst | src/main/java/Server.java:47-50 | the "Error Request" frame is written exactly when parsing gives null or the method has no routes, whatever the path (even a public one) |
| Routing.BadUriFails | src/main/java/Server.java:64-66 | a malformed URI ends the connection with an exception whatever the routes |
| Routing.DecideAccepted | src/main/java/Server.java:53-62 | a handler runs exactly when one is registered under the route key, and it is that one (registration beats the public list); "Not Found" is written exactly when the key is neither registered nor public; a public unregistered key is served from the files |
| Routing.StaticIsNotStatusFrame | src/main/java/Server.java:57-61 | what the static responder writes is never one of the 404 frames |
| Routing.FramesDiffer | src/main/java/Server.java:48 | the "Error Request" and "Not Found" frames differ |
| Routing.RegisteredRouteHandles | src/main/java/Server.java:46-55 | end to end: the bytes of a well-formed request (with or without a query, any trailing spaces, any bytes after the blank line) whose route key is registered for its method reach that handler with the request's method, full path and headers |
| Routing.Server.constructor | src/main/java/Server.java:23-27 | a new server has an empty route table |
| Routing.Server.AddHandler | src/main/java/Server.java:69-74 | the table becomes `Register` of the old table |
| Routing.Server.HandleConnection | src/main/java/Server.java:42-67 | parsing with `CreateRequest` and deciding in place gives what `Decide` specifies |
| NetologyServer.HandleConnection | src/main/java/ru/netology/Server.java:44-108 | at end of stream (`readLine` gives null) nothing is written |
| NetologyServer.WrongTokenCountIsSilent | src/main/java/ru/netology/Server.java:51-57 | a request line that does not split into three tokens gets no bytes at all |
| NetologyServer.OnlyPathMatters | src/main/java/ru/netology/Server.java:51-60 | the method token is never checked: lines with the same second token get the same bytes |
| NetologyServer.PublicPathsHaveNoQuery | src/main/java/ru/netology/Server.java:14-15 | no public path contains `?` |
| NetologyServer.UnlistedPathNotFound | src/main/java/ru/netology/Server.java:59-68 | a request line of three tokens whose second token is not a public path gets exactly the 404 frame, whatever the method and version |
| NetologyServer.QueryMeansNotFound | src/main/java/ru/netology/Server.java:59-60 | the second token is used verbatim, so any path with a query, such as `/index.html?x=1`, gets the 404 frame, with or without spaces after the version |
| NetologyServer.NotFoundFrameIsStatusFrame | src/main/java/ru/netology/Server.java:60-68 | the literal 404 frame is byte for byte the frame `outContentResponse("404", "Not Found")` writes |
| NetologyServer.NotFoundFrameReads | src/main/java/ru/netology/Server.java:60-68 | a client reads `HTTP/1.1 404 Not Found`, `Content-Length: 0`, `Connection: close` and no body |
| NetologyServer.PublicPathServed | src/main/java/ru/netology/Server.java:71-101 | a public path whose file can be read gets the frame the static responder of Server.java writes: `{time}` filled in for `/classic.html`, the file's bytes otherwise, with a `Content-Length` for the body |

## Left out

- The accept loop, the thread pool, socket setup, the port, and the logging to standard output. These are concurrency and network I/O. An exception ends the connection: `Server.java` rethrows checked ones as `RuntimeException`, and in `ru/netology/Server.java` the exception thrown by splitting a null request line at end of stream escapes the connection's thread uncaught. The model records only that nothing was written (`Failed` in `Routing.Outcome`, an empty answer in `NetologyServer`).
- Stream mechanics. `mark`, `reset`, `skip` and `readNBytes` re-read bytes that are already in the buffer, so the model slices the buffer instead. An `IOException` from `read` is not modelled. A short `read` is simply the `read` count.
- `URLEncodedUtils.parse` and `new URI`. They are a foreign library, taken as the `QueryParser` parameter. URL decoding is therefore not modelled.
- `Files.probeContentType`, `Files.size`, `Files.copy`, `Files.readString` and `LocalDateTime.now`. These are the `files` map and the `now` bytes. Two things follow:
  - The model assumes a file does not change between `size` and `copy`.
  - `readString` failing on text that is not UTF-8 is not modelled.
- The template substitution works on the file's bytes rather than on decoded text. `readString` always decodes UTF-8, but `getBytes()` encodes with the platform charset. The model assumes the platform charset is UTF-8; then the two agree, because the `{time}` token is ASCII.
- Handler bodies, and with them `src/main/java/Main.java`. Main.java only registers three handlers at startup.
- `Requests.EqualsIgnoreCase`: does not model the case mapping beyond ASCII letters that Java's `equalsIgnoreCase` applies.
- `Bytes.Decode`: does not model charsets other than one byte per character. `new String(bytes)` uses the platform charset, which agrees on ASCII.
- The second `Request` constructor (`Request(method, path)`). Nothing in the core calls it.
- The getters of `Request`. They are the fields of the `Requests.Request` datatype.
- The inner `HashMap` of the route table is mutable and shared by reference. The model keeps it as a map value: `handleConnection` only reads it, and nothing outside `addHandler` mutates it, so the sharing is not observable.
- `Requests.ParseWellFormed`: states the round trip only for requests whose path holds no space or CR, whose version is not empty, and whose header lines are non-empty and hold no CR. Other byte strings are covered by the rejection lemmas and `Requests.ParseAccepts`.
- `Responses.FileResponseReads`, `Responses.ClassicPage` and `Responses.StaticPage`: assume a content type with no CR. Real MIME types never contain one.
