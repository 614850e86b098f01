/**
 * Turning the first bytes of a connection into a request (Request.java):
 * the request line, the raw header lines and the query parameters.
 *
 * The stream is replaced by the buffer it fills once: `buffer` holds the
 * bytes `in.read` stored and `read` is its result (-1 at end of stream).
 * Re-reading the header bytes after `mark`/`reset`/`skip` is slicing the same
 * buffer.
 */
module Requests {
  import opened Wrappers
  import opened Seqs
  import opened Bytes

  /** The size of the buffer a request must fit in. */
  const LIMIT := 4096
  const GET := "GET"
  const POST := "POST"
  /** The methods the parser lets through. */
  const METHODS: seq<string> := [GET, POST]

  /** A query parameter after URL decoding. */
  datatype Param = Param(name: string, value: string)

  /** A parsed request; `path` still carries its query component. */
  datatype Request = Request(httpMethod: string, path: string, headers: seq<string>, params: seq<Param>)

  /** How `createRequest` ends: a request, `null`, or a thrown URISyntaxException. */
  datatype Parsed = Accepted(request: Request) | Rejected | BadUri

  /**
   * The query decoding `URLEncodedUtils.parse(new URI(path), UTF_8)` does:
   * the name/value pairs of the path's query, or None when `new URI` throws.
   */
  type QueryParser = string -> Option<seq<Param>>

  /**
   * `indexOf`: the first index `i` in `[start, max - |target|]` at which
   * `target` occurs in `buffer`, or -1.
   */
  method IndexOf(buffer: array<byte>, target: seq<byte>, start: int, max: int) returns (r: int)
    requires 0 <= start && max <= buffer.Length
    ensures r == FirstMatch(buffer[..], target, start, max)
  {
    var i := start;
    while i < max - |target| + 1
      invariant start <= i
      invariant forall k :: start <= k < i ==> !MatchesAt(buffer[..], target, k)
      decreases max - i
    {
      var j := 0;
      while j < |target|
        invariant 0 <= j <= |target|
        invariant buffer[i..i + j] == target[..j]
      {
        assert start <= i + j < max;  // no read leaves [start, max)
        if buffer[i + j] != target[j] {
          break;
        }
        j := j + 1;
      }
      if j == |target| {
        assert buffer[..][i..i + |target|] == target;
        FirstMatchIs(buffer[..], target, start, max, i);
        return i;
      }
      i := i + 1;
    }
    return -1;
  }

  /**
   * What `createRequest` computes from the buffer: the request line is the
   * text before the first CRLF and must split on single spaces into method,
   * path and version; the header block runs from after that CRLF to the first
   * CRLFCRLF found from there.
   */
  function Parse(buffer: seq<byte>, read: int, query: QueryParser): (r: Parsed)
    requires |buffer| == LIMIT && -1 <= read <= LIMIT
    ensures (forall k | 0 <= k < read - 1 :: !MatchesAt(buffer, CRLF, k)) ==> r == Rejected
    ensures r.Accepted? ==> r.request.httpMethod in METHODS && StartsWith(r.request.path, "/")
    ensures r.Accepted? ==> query(r.request.path) == Some(r.request.params)
  {
    var requestLineEnd := FirstMatch(buffer, CRLF, 0, read);
    if requestLineEnd == -1 then Rejected
    else
      var requestLine := Split(Decode(buffer[..requestLineEnd]), " ");
      if |requestLine| != 3 then Rejected
      else if requestLine[0] !in METHODS then Rejected
      else if !StartsWith(requestLine[1], "/") then Rejected
      else
        var headersStart := requestLineEnd + |CRLF|;
        var headersEnd := FirstMatch(buffer, CRLFCRLF, headersStart, read);
        if headersEnd == -1 then Rejected
        else
          var headers := Split(Decode(buffer[headersStart..headersEnd]), "\r\n");
          match query(requestLine[1])
          case None => BadUri
          case Some(params) => Accepted(Request(requestLine[0], requestLine[1], headers, params))
  }

  /** `createRequest` over the buffer array, searching it with IndexOf. */
  method CreateRequest(buffer: array<byte>, read: int, query: QueryParser) returns (r: Parsed)
    requires buffer.Length == LIMIT && -1 <= read <= LIMIT
    ensures r == Parse(buffer[..], read, query)
  {
    var requestLineEnd := IndexOf(buffer, CRLF, 0, read);
    if requestLineEnd == -1 {
      return Rejected;
    }
    var requestLine := Split(Decode(buffer[..requestLineEnd]), " ");
    if |requestLine| != 3 {
      return Rejected;
    }
    var requestMethod := requestLine[0];
    if requestMethod !in METHODS {
      return Rejected;
    }
    var path := requestLine[1];
    if !StartsWith(path, "/") {
      return Rejected;
    }
    var headersStart := requestLineEnd + |CRLF|;
    var headersEnd := IndexOf(buffer, CRLFCRLF, headersStart, read);
    if headersEnd == -1 {
      return Rejected;
    }
    var headers := Split(Decode(buffer[headersStart..headersEnd]), "\r\n");
    match query(path) {
      case None => return BadUri;
      case Some(params) => return Accepted(Request(requestMethod, path, headers, params));
    }
  }

  /** The first CRLF among the first `read` bytes starts at `e`. */
  predicate RequestLineEndsAt(buffer: seq<byte>, read: int, e: int) {
    0 <= e && e + 2 <= read && MatchesAt(buffer, CRLF, e)
    && forall k | 0 <= k < e :: !MatchesAt(buffer, CRLF, k)
  }

  /** The first CRLFCRLF at or after `from` among the first `read` bytes starts at `h`. */
  predicate HeaderBlockEndsAt(buffer: seq<byte>, read: int, from: int, h: int) {
    0 <= from <= h && h + 4 <= read && MatchesAt(buffer, CRLFCRLF, h)
    && forall k | from <= k < h :: !MatchesAt(buffer, CRLFCRLF, k)
  }

  /** The request line must split into exactly three tokens. */
  lemma ParseNeedsThreeTokens(buffer: seq<byte>, read: int, query: QueryParser, e: int)
    requires |buffer| == LIMIT && -1 <= read <= LIMIT && read <= |buffer|
    requires RequestLineEndsAt(buffer, read, e)
    requires |Split(Decode(buffer[..e]), " ")| != 3
    ensures Parse(buffer, read, query) == Rejected
  {
    FirstMatchIs(buffer, CRLF, 0, read, e);
  }

  /** The first token must be GET or POST. */
  lemma ParseNeedsKnownMethod(buffer: seq<byte>, read: int, query: QueryParser, e: int)
    requires |buffer| == LIMIT && -1 <= read <= LIMIT
    requires RequestLineEndsAt(buffer, read, e)
    requires var tokens := Split(Decode(buffer[..e]), " "); |tokens| == 3 && tokens[0] != GET && tokens[0] != POST
    ensures Parse(buffer, read, query) == Rejected
  {
    FirstMatchIs(buffer, CRLF, 0, read, e);
  }

  /** The second token must start with a slash. */
  lemma ParseNeedsAbsolutePath(buffer: seq<byte>, read: int, query: QueryParser, e: int)
    requires |buffer| == LIMIT && -1 <= read <= LIMIT
    requires RequestLineEndsAt(buffer, read, e)
    requires var tokens := Split(Decode(buffer[..e]), " "); |tokens| == 3 && !StartsWith(tokens[1], "/")
    ensures Parse(buffer, read, query) == Rejected
  {
    FirstMatchIs(buffer, CRLF, 0, read, e);
  }

  /**
   * A CRLFCRLF must begin at or after the end of the request line's CRLF,
   * within the bytes read.
   */
  lemma ParseNeedsHeaderTerminator(buffer: seq<byte>, read: int, query: QueryParser, e: int)
    requires |buffer| == LIMIT && -1 <= read <= LIMIT
    requires RequestLineEndsAt(buffer, read, e)
    requires forall k | e + 2 <= k <= read - 4 :: !MatchesAt(buffer, CRLFCRLF, k)
    ensures Parse(buffer, read, query) == Rejected
  {
    FirstMatchIs(buffer, CRLF, 0, read, e);
  }

  /**
   * A request line followed by a blank line and nothing else has no header
   * line, so the terminator search (which starts after the request line's
   * CRLF) fails: `GET / HTTP/1.1\r\n\r\n` is rejected.
   */
  lemma ParseRejectsNoHeaderLines(buffer: seq<byte>, read: int, query: QueryParser, e: int)
    requires |buffer| == LIMIT && -1 <= read <= LIMIT
    requires RequestLineEndsAt(buffer, read, e) && read == e + 4
    ensures Parse(buffer, read, query) == Rejected
  {
    ParseNeedsHeaderTerminator(buffer, read, query, e);
  }

  /**
   * When every check passes, method and path are the first two tokens as they
   * are, the headers are the header block split on CRLF, and the parameters
   * are what the query parser makes of the path (a parser failure is thrown).
   */
  lemma ParseAccepts(buffer: seq<byte>, read: int, query: QueryParser, e: int, h: int)
    requires |buffer| == LIMIT && -1 <= read <= LIMIT
    requires RequestLineEndsAt(buffer, read, e) && HeaderBlockEndsAt(buffer, read, e + 2, h)
    requires var tokens := Split(Decode(buffer[..e]), " ");
      |tokens| == 3 && tokens[0] in METHODS && StartsWith(tokens[1], "/")
    ensures var tokens := Split(Decode(buffer[..e]), " ");
      Parse(buffer, read, query) ==
        match query(tokens[1])
        case None => BadUri
        case Some(params) => Accepted(Request(tokens[0], tokens[1], Split(Decode(buffer[e + 2..h]), "\r\n"), params))
  {
    FirstMatchIs(buffer, CRLF, 0, read, e);
    FirstMatchIs(buffer, CRLFCRLF, e + 2, read, h);
  }

  /** `n` spaces. */
  function Spaces(n: nat): (s: string)
    ensures |s| == n && forall i | 0 <= i < n :: s[i] == ' '
  {
    seq(n, _ => ' ')
  }

  /** The bytes a client sends: request line, header lines, blank line. */
  function RequestText(requestMethod: string, path: string, version: string, trailing: nat, headers: seq<string>): string
    requires |headers| >= 1
  {
    requestMethod + " " + path + " " + version + Spaces(trailing) + "\r\n" + Join(headers, "\r\n") + "\r\n\r\n"
  }


  /**
   * Round trip: the text of a well-formed request (any number of trailing
   * spaces after the version, at least one header line), followed by any
   * bytes at all (a body, or the start of the next request), parses back
   * into its method, path and header lines.
   */
  lemma ParseWellFormed(buffer: seq<byte>, read: int, query: QueryParser,
                        requestMethod: string, path: string, version: string, trailing: nat, headers: seq<string>, body: string)
    requires |buffer| == LIMIT && 0 <= read <= LIMIT
    requires requestMethod in METHODS
    requires StartsWith(path, "/") && ' ' !in path && '\r' !in path
    requires version != "" && ' ' !in version && '\r' !in version
    requires |headers| >= 1 && forall i | 0 <= i < |headers| :: headers[i] != "" && '\r' !in headers[i]
    requires Decode(buffer[..read]) == RequestText(requestMethod, path, version, trailing, headers) + body
    requires query(path).Some?
    ensures Parse(buffer, read, query) == Accepted(Request(requestMethod, path, headers, query(path).value))
  {
    var head := RequestText(requestMethod, path, version, trailing, headers);
    var n := |head|;
    assert Decode(buffer[..n]) == head by {
      DecodedPiece(buffer, read, head + body, 0, n);
      assert buffer[..n] == buffer[0..n];
      assert (head + body)[0..n] == head;
    }
    ParseRequestText(buffer, n, query, requestMethod, path, version, trailing, headers);
    ParseIgnoresRest(buffer, n, read, query);
  }

  /** The round trip for a buffer whose first `read` bytes are exactly the request's text. */
  lemma ParseRequestText(buffer: seq<byte>, read: int, query: QueryParser,
                         requestMethod: string, path: string, version: string, trailing: nat, headers: seq<string>)
    requires |buffer| == LIMIT && 0 <= read <= LIMIT
    requires requestMethod in METHODS
    requires StartsWith(path, "/") && ' ' !in path && '\r' !in path
    requires version != "" && ' ' !in version && '\r' !in version
    requires |headers| >= 1 && forall i | 0 <= i < |headers| :: headers[i] != "" && '\r' !in headers[i]
    requires Decode(buffer[..read]) == RequestText(requestMethod, path, version, trailing, headers)
    requires query(path).Some?
    ensures Parse(buffer, read, query) == Accepted(Request(requestMethod, path, headers, query(path).value))
  {
    var line := requestMethod + " " + path + " " + version + Spaces(trailing);
    var block := Join(headers, "\r\n");
    var text := RequestText(requestMethod, path, version, trailing, headers);
    var e, h := |line|, |line| + 2 + |block|;
    assert '\r' !in line by {
      assert '\r' !in Spaces(trailing);
      assert requestMethod == GET || requestMethod == POST;
    }
    RequestTextSearches(line, headers, text);
    LocateInBuffer(buffer, read, text, e, h);
    DecodedPiece(buffer, read, text, 0, e);
    DecodedPiece(buffer, read, text, e + 2, h);
    RequestLineTokens(requestMethod, path, version, trailing);
    SplitJoin(headers, "\r\n");
    ParseAccepts(buffer, read, query, e, h);
  }

  /**
   * Bytes read after the blank line never change the result: once the
   * request line and the header block have been found among the first
   * `read` bytes, reading more gives the same request (or the same URI
   * error).
   */
  lemma ParseIgnoresRest(buffer: seq<byte>, read: int, more: int, query: QueryParser)
    requires |buffer| == LIMIT && -1 <= read <= more <= LIMIT
    requires Parse(buffer, read, query) != Rejected
    ensures Parse(buffer, more, query) == Parse(buffer, read, query)
  {
    var e := FirstMatch(buffer, CRLF, 0, read);
    FirstMatchWiden(buffer, CRLF, 0, read, more);
    FirstMatchWiden(buffer, CRLFCRLF, e + 2, read, more);
  }

  /**
   * In a request's text the first CRLF ends the request line, the first
   * CRLFCRLF after it ends the header block, and the two pieces can be cut
   * back out.
   */
  lemma RequestTextSearches(line: string, headers: seq<string>, text: string)
    requires '\r' !in line
    requires |headers| >= 1 && forall i | 0 <= i < |headers| :: headers[i] != "" && '\r' !in headers[i]
    requires text == line + "\r\n" + Join(headers, "\r\n") + "\r\n\r\n"
    ensures FirstMatch(text, "\r\n", 0, |text|) == |line|
    ensures FirstMatch(text, "\r\n\r\n", |line| + 2, |text|) == |line| + 2 + |Join(headers, "\r\n")|
    ensures text[..|line|] == line
    ensures text[|line| + 2..|line| + 2 + |Join(headers, "\r\n")|] == Join(headers, "\r\n")
  {
    var block := Join(headers, "\r\n");
    LineSearch(line, block + "\r\n\r\n", text);
    BlockSearch(line + "\r\n", headers, text);
  }

  /** The first CRLF of a request's text ends its request line. */
  lemma LineSearch(line: string, rest: string, text: string)
    requires '\r' !in line && text == line + "\r\n" + rest
    ensures FirstMatch(text, "\r\n", 0, |text|) == |line| && text[..|line|] == line
  {
    FirstDelimiterEndsPiece(line, "\r\n", rest);
  }

  /** The first CRLFCRLF after the request line ends the header block. */
  lemma BlockSearch(prefix: string, headers: seq<string>, text: string)
    requires |headers| >= 1 && forall i | 0 <= i < |headers| :: headers[i] != "" && '\r' !in headers[i]
    requires text == prefix + Join(headers, "\r\n") + "\r\n\r\n"
    ensures FirstMatch(text, "\r\n\r\n", |prefix|, |text|) == |prefix| + |Join(headers, "\r\n")|
    ensures text[|prefix|..|prefix| + |Join(headers, "\r\n")|] == Join(headers, "\r\n")
  {
    var d: string := "\r\n";
    CrlfText();
    var block, o := Join(headers, d), |prefix|;
    JoinGapped(headers, d);
    ClosedBlockLayout(prefix, block, d + d, [], text);
    FirstDoubleDelimiterAfter(text, o, block, d);
  }

  /** The CRLF text: two different characters, and doubled it is the blank-line terminator. */
  lemma CrlfText()
    ensures var d: string := "\r\n"; d[0] == '\r' && d[0] != d[1] && d + d == "\r\n\r\n"
  {
  }

  /**
   * Where the searches of the decoded text land, the searches of the buffer
   * land too.
   */
  lemma LocateInBuffer(buffer: seq<byte>, read: int, text: string, e: int, h: int)
    requires 0 <= read <= |buffer| && Decode(buffer[..read]) == text
    requires 0 <= e && FirstMatch(text, "\r\n", 0, |text|) == e
    requires FirstMatch(text, "\r\n\r\n", e + 2, |text|) == h && h >= 0
    ensures RequestLineEndsAt(buffer, read, e) && HeaderBlockEndsAt(buffer, read, e + 2, h)
  {
    DecodeCrlf();
    SearchDecoded(buffer, read, CRLF, 0);
    SearchDecoded(buffer, read, CRLFCRLF, e + 2);
  }

  /** A piece of the decoded text is the decoding of the same piece of the buffer. */
  lemma DecodedPiece(buffer: seq<byte>, read: int, text: string, i: int, j: int)
    requires 0 <= read <= |buffer| && Decode(buffer[..read]) == text
    requires 0 <= i <= j <= read
    ensures Decode(buffer[i..j]) == text[i..j]
  {
    DecodeSlice(buffer, 0, read);
    DecodeSlice(buffer, i, j);
  }

  /** Searching the first `read` bytes is searching their decoded text. */
  lemma SearchDecoded(buffer: seq<byte>, read: int, t: seq<byte>, start: int)
    requires 0 <= start && 0 <= read <= |buffer|
    ensures FirstMatch(buffer, t, start, read) == FirstMatch(Decode(buffer[..read]), Decode(t), start, read)
  {
    FirstMatchPrefix(buffer, t, start, read, read);
    FirstMatchDecode(buffer[..read], t, start, read);
  }

  /**
   * A request line made of method, path, version and trailing spaces splits
   * on single spaces into exactly method, path and version.
   */
  lemma {:induction false} RequestLineTokens(requestMethod: string, path: string, version: string, trailing: nat)
    requires requestMethod != "" && ' ' !in requestMethod
    requires ' ' !in path && version != "" && ' ' !in version
    ensures Split(requestMethod + " " + path + " " + version + Spaces(trailing), " ") == [requestMethod, path, version]
  {
    var tokens := [requestMethod, path, version];
    var padded := tokens + Empties(trailing);
    JoinTrailingEmpties(tokens, trailing);
    assert Join(tokens, " ") == requestMethod + " " + path + " " + version by {
      assert tokens[1..] == [path, version] && tokens[1..][1..] == [version];
      assert Join(tokens[1..], " ") == path + " " + version;
    }
    SplitAllJoin(padded, " ");
    var r := DropTrailingEmpty(padded);
    assert padded[2] == version;
    assert |r| >= 3;
    assert r == padded[..|r|];
    assert |r| == 3;
    assert r == tokens;
  }

  /** `n` empty pieces. */
  function Empties(n: nat): (s: seq<string>)
    ensures |s| == n && forall i | 0 <= i < n :: s[i] == ""
  {
    seq(n, _ => "")
  }

  /** Appending `n` empty pieces to a join appends `n` delimiters. */
  lemma {:induction false} JoinTrailingEmpties(parts: seq<string>, n: nat)
    requires |parts| >= 1
    ensures Join(parts + Empties(n), " ") == Join(parts, " ") + Spaces(n)
    decreases n
  {
    if n == 0 {
      assert parts + Empties(n) == parts;
      assert Join(parts, " ") + Spaces(n) == Join(parts, " ");
    } else {
      JoinTrailingEmpties(parts, n - 1);
      var shorter := parts + Empties(n - 1);
      assert Empties(n) == Empties(n - 1) + [""];
      assert parts + Empties(n) == shorter + [[]];
      JoinEmptyLast(shorter, " ");
      assert Spaces(n) == Spaces(n - 1) + " ";
    }
  }

  /** The upper-case mapping `equalsIgnoreCase` applies, on the ASCII letters. */
  function ToUpper(c: char): char {
    if 'a' <= c <= 'z' then (c as int - 32) as char else c
  }

  /** The lower-case mapping `equalsIgnoreCase` applies, on the ASCII letters. */
  function ToLower(c: char): char {
    if 'A' <= c <= 'Z' then (c as int + 32) as char else c
  }

  /** Java's `equalsIgnoreCase`, character by character. */
  predicate EqualsIgnoreCase(a: string, b: string): (r: bool)
    ensures a == b ==> r
    ensures r ==> |a| == |b|
  {
    |a| == |b| &&
    forall i | 0 <= i < |a| ::
      a[i] == b[i] || ToUpper(a[i]) == ToUpper(b[i]) || ToLower(ToUpper(a[i])) == ToLower(ToUpper(b[i]))
  }

  /**
   * `getQueryParam`: the first parameter whose name equals `name` ignoring
   * case, or the pair of `name` and the empty value.
   */
  function GetQueryParam(params: seq<Param>, name: string): (r: Param)
    ensures (forall i | 0 <= i < |params| :: !EqualsIgnoreCase(params[i].name, name)) ==> r == Param(name, "")
    ensures (exists i | 0 <= i < |params| :: EqualsIgnoreCase(params[i].name, name)) ==>
      exists i | 0 <= i < |params| ::
        r == params[i] && EqualsIgnoreCase(params[i].name, name)
        && forall j | 0 <= j < i :: !EqualsIgnoreCase(params[j].name, name)
  {
    if params == [] then Param(name, "")
    else if EqualsIgnoreCase(params[0].name, name) then params[0]
    else
      var r := GetQueryParam(params[1..], name);
      assert forall i | 1 <= i < |params| :: params[i] == params[1..][i - 1];
      r
  }

  /** Ignoring case is comparing upper-case forms. */
  lemma EqualsIgnoreCaseIsUpperEqual(a: string, b: string)
    ensures EqualsIgnoreCase(a, b) <==> |a| == |b| && forall i | 0 <= i < |a| :: ToUpper(a[i]) == ToUpper(b[i])
  {
  }

  /** Names that are equal ignoring case look up the same value. */
  lemma {:induction false} GetQueryParamIgnoresCase(params: seq<Param>, a: string, b: string)
    requires EqualsIgnoreCase(a, b)
    ensures GetQueryParam(params, a).value == GetQueryParam(params, b).value
    decreases |params|
  {
    EqualsIgnoreCaseIsUpperEqual(a, b);
    if params != [] {
      var n := params[0].name;
      EqualsIgnoreCaseIsUpperEqual(n, a);
      EqualsIgnoreCaseIsUpperEqual(n, b);
      assert EqualsIgnoreCase(n, a) <==> EqualsIgnoreCase(n, b);
      GetQueryParamIgnoresCase(params[1..], a, b);
    }
  }
}
