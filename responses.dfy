/**
 * The responses both servers write: the header-only status frame of
 * `outContentResponse`, the `200 OK` frame `defaultHandler` puts in front of
 * a static file, and the `{time}` substitution applied to `/classic.html`.
 *
 * A client-side reader (`ReadResponse`, `HeaderValue`) is the independent
 * view the frames are checked against: what a client finds in the status
 * line, the header lines and the body, and that `Content-Length` counts the
 * body's bytes.
 */
module Responses {
  import opened Wrappers
  import opened Seqs
  import opened Bytes

  /**
   * A file under `public/`: the type `Files.probeContentType` reports for it
   * (None for Java's `null`) and its bytes.
   */
  datatype StaticFile = StaticFile(mimeType: Option<seq<byte>>, content: seq<byte>)

  /** The paths both servers serve from `public/`. */
  const PUBLIC_PATHS: seq<string> := ["/index.html", "/spring.svg", "/spring.png", "/resources.html",
    "/styles.css", "/app.js", "/links.html", "/forms.html", "/classic.html", "/events.html", "/events.js"]

  /** The one page whose `{time}` placeholders are filled in. */
  const CLASSIC := "/classic.html"

  const TIME_TOKEN: seq<byte> := Ascii("{time}")

  /** The fixed pieces of the frames, as the bytes `getBytes()` gives. */
  const VERSION_PREFIX: seq<byte> := Ascii("HTTP/1.1 ")
  const SP: seq<byte> := Ascii(" ")
  const OK_STATUS_LINE: seq<byte> := Ascii("HTTP/1.1 200 OK")
  const CONTENT_TYPE: seq<byte> := Ascii("Content-Type")
  const CONTENT_LENGTH: seq<byte> := Ascii("Content-Length")
  const HEADER_SEPARATOR: seq<byte> := Ascii(": ")
  const CONTENT_TYPE_FIELD: seq<byte> := Ascii("Content-Type: ")
  const CONTENT_LENGTH_FIELD: seq<byte> := Ascii("Content-Length: ")
  const ZERO_LENGTH_LINE: seq<byte> := Ascii("Content-Length: 0")
  const CLOSE_LINE: seq<byte> := Ascii("Connection: close")
  const NULL_TEXT: seq<byte> := Ascii("null")

  /** `outContentResponse(code, status)`: a status line and no body. */
  function ContentResponse(code: seq<byte>, status: seq<byte>): (r: seq<byte>)
    ensures StartsWith(r, VERSION_PREFIX + code)
  {
    VERSION_PREFIX + code + SP + status + CRLF
      + ZERO_LENGTH_LINE + CRLF
      + CLOSE_LINE + CRLF
      + CRLF
  }

  /** String concatenation renders Java's `null` as the text `null`. */
  function MimeText(mimeType: Option<seq<byte>>): (r: seq<byte>)
    ensures mimeType.None? ==> Decode(r) == "null"
    ensures mimeType.Some? ==> r == mimeType.value
  {
    match mimeType
    case None => NULL_TEXT
    case Some(m) => m
  }

  /**
   * The `200 OK` frame in front of a body: content type, the body's length in
   * decimal, `Connection: close`, a blank line, then the body.
   */
  function FileResponse(mimeType: Option<seq<byte>>, body: seq<byte>): (r: seq<byte>)
    ensures |r| > |body| && r[|r| - |body|..] == body
  {
    OK_STATUS_LINE + CRLF
      + (CONTENT_TYPE_FIELD + MimeText(mimeType)) + CRLF
      + (CONTENT_LENGTH_FIELD + Decimal(|body|)) + CRLF
      + CLOSE_LINE + CRLF
      + CRLF
      + body
  }

  /**
   * `defaultHandler(out, path)`: `/classic.html` is served with every
   * `{time}` replaced by the timestamp `now`; any other path is served as
   * its file's bytes. A file that cannot be read throws before anything is
   * written (None).
   */
  function DefaultHandler(files: map<string, StaticFile>, path: string, now: seq<byte>): (r: Option<seq<byte>>)
    ensures r.Some? <==> path in files
  {
    if path !in files then None
    else
      var file := files[path];
      if path == CLASSIC then Some(FileResponse(file.mimeType, Replace(file.content, TIME_TOKEN, now)))
      else Some(FileResponse(file.mimeType, file.content))
  }

  /** What a client reads from a response. */
  datatype Response = Response(statusLine: seq<byte>, headers: seq<seq<byte>>, body: seq<byte>)

  /**
   * A client's reading of a response: the head runs to the first CRLFCRLF
   * and splits on CRLF into the status line and the header lines; the rest
   * is the body.
   */
  function ReadResponse(bytes: seq<byte>): Option<Response> {
    var h := FirstMatch(bytes, CRLFCRLF, 0, |bytes|);
    if h == -1 then None
    else
      var lines := Split(bytes[..h], CRLF);
      if lines == [] then None else Some(Response(lines[0], lines[1..], bytes[h + 4..]))
  }

  /** The value of the first header line `name: value`, if any. */
  function HeaderValue(headers: seq<seq<byte>>, name: seq<byte>): (r: Option<seq<byte>>)
    ensures r.Some? ==> exists i | 0 <= i < |headers| :: headers[i] == name + HEADER_SEPARATOR + r.value
    ensures r.None? ==> forall i | 0 <= i < |headers| :: !StartsWith(headers[i], name + HEADER_SEPARATOR)
  {
    if headers == [] then None
    else if StartsWith(headers[0], name + HEADER_SEPARATOR) then
      var line := headers[0];
      assert line == name + HEADER_SEPARATOR + line[|name| + 2..];
      Some(line[|name| + 2..])
    else
      var r := HeaderValue(headers[1..], name);
      assert forall i | 1 <= i < |headers| :: headers[i] == headers[1..][i - 1];
      r
  }

  /** Header lines joined with CRLF and closed by a blank line. */
  function Head(lines: seq<seq<byte>>): seq<byte>
    requires |lines| >= 1
  {
    Join(lines, CRLF) + CRLFCRLF
  }

  /** Lines a client can read back: none empty, none holding a carriage return. */
  predicate ReadableLines(lines: seq<seq<byte>>) {
    |lines| >= 1 && forall i | 0 <= i < |lines| :: lines[i] != [] && CR !in lines[i]
  }

  /** A head of readable lines followed by a body reads back as those lines and that body. */
  lemma ReadHead(lines: seq<seq<byte>>, body: seq<byte>)
    requires ReadableLines(lines)
    ensures ReadResponse(Head(lines) + body) == Some(Response(lines[0], lines[1..], body))
  {
    var block := Join(lines, CRLF);
    var bytes := Head(lines) + body;
    assert CRLF[0] == CR && CRLF[0] != CRLF[1] && CRLF + CRLF == CRLFCRLF;
    var h := |block|;
    JoinGapped(lines, CRLF);
    ClosedBlockLayout([], block, CRLF + CRLF, body, bytes);
    FirstDoubleDelimiterAfter(bytes, 0, block, CRLF);
    assert bytes[..h] == block && bytes[h + 4..] == body;
    SplitJoin(lines, CRLF);
  }

  /** The status frame is a head of three lines. */
  lemma ContentResponseLayout(code: seq<byte>, status: seq<byte>)
    ensures ContentResponse(code, status) ==
      Head([VERSION_PREFIX + code + SP + status, ZERO_LENGTH_LINE, CLOSE_LINE])
  {
    var parts := [VERSION_PREFIX + code + SP + status, ZERO_LENGTH_LINE, CLOSE_LINE];
    JoinThree(parts, CRLF);
  }

  /** Three pieces joined. */
  lemma JoinThree(parts: seq<seq<byte>>, d: seq<byte>)
    requires |parts| == 3
    ensures Join(parts, d) == parts[0] + d + parts[1] + d + parts[2]
  {
    var rest := parts[1..];
    assert rest[1..] == [parts[2]];
    assert Join(rest, d) == parts[1] + d + parts[2];
    assert Join(parts, d) == parts[0] + d + Join(rest, d);
  }

  /** Four pieces joined. */
  lemma JoinFour(parts: seq<seq<byte>>, d: seq<byte>)
    requires |parts| == 4
    ensures Join(parts, d) == parts[0] + d + parts[1] + d + parts[2] + d + parts[3]
  {
    var rest := parts[1..];
    JoinThree(rest, d);
    assert Join(parts, d) == parts[0] + d + Join(rest, d);
  }

  /**
   * A client reading the status frame finds the status line
   * `HTTP/1.1 <code> <status>`, the headers `Content-Length: 0` and
   * `Connection: close`, and an empty body: the declared length is the
   * body's.
   */
  lemma ContentResponseReads(code: seq<byte>, status: seq<byte>)
    requires CR !in code && CR !in status
    ensures ReadResponse(ContentResponse(code, status)) ==
      Some(Response(VERSION_PREFIX + code + SP + status, [ZERO_LENGTH_LINE, CLOSE_LINE], []))
    ensures var length := HeaderValue([ZERO_LENGTH_LINE, CLOSE_LINE], CONTENT_LENGTH);
      length == Some(Decimal(0)) && DigitsValue(length.value) == 0
  {
    var statusLine := VERSION_PREFIX + code + SP + status;
    var lines := [statusLine, ZERO_LENGTH_LINE, CLOSE_LINE];
    ContentResponseLayout(code, status);
    assert CR !in statusLine;
    assert ReadableLines(lines);
    ReadHead(lines, []);
    assert Head(lines) + [] == Head(lines);
    ZeroLength();
  }

  /** The status frame declares a zero length. */
  lemma ZeroLength()
    ensures HeaderValue([ZERO_LENGTH_LINE, CLOSE_LINE], CONTENT_LENGTH) == Some(Decimal(0))
    ensures DigitsValue(Decimal(0)) == 0
  {
    assert ZERO_LENGTH_LINE == CONTENT_LENGTH + HEADER_SEPARATOR + Decimal(0);
    DecimalRoundTrip(0);
  }

  /** The `200 OK` frame is a head of four lines followed by the body. */
  lemma FileResponseLayout(mimeType: Option<seq<byte>>, body: seq<byte>)
    ensures FileResponse(mimeType, body) == Head([OK_STATUS_LINE] + FileHeaders(mimeType, body)) + body
  {
    var a, b, c, e := OK_STATUS_LINE, CONTENT_TYPE_FIELD + MimeText(mimeType),
      CONTENT_LENGTH_FIELD + Decimal(|body|), CLOSE_LINE;
    assert [a] + FileHeaders(mimeType, body) == [a, b, c, e];
    HeadOfFour(a, b, c, e, body);
  }

  /** A head of four lines, written out. */
  lemma HeadOfFour(a: seq<byte>, b: seq<byte>, c: seq<byte>, e: seq<byte>, body: seq<byte>)
    ensures Head([a, b, c, e]) + body == a + CRLF + b + CRLF + c + CRLF + e + CRLF + CRLF + body
  {
    JoinFour([a, b, c, e], CRLF);
  }

  /** The header lines of the `200 OK` frame. */
  function FileHeaders(mimeType: Option<seq<byte>>, body: seq<byte>): seq<seq<byte>> {
    [CONTENT_TYPE_FIELD + MimeText(mimeType), CONTENT_LENGTH_FIELD + Decimal(|body|), CLOSE_LINE]
  }

  /**
   * A client reading the `200 OK` frame finds the status line
   * `HTTP/1.1 200 OK`, the three header lines, and the body.
   */
  lemma FileResponseReads(mimeType: Option<seq<byte>>, body: seq<byte>)
    requires CR !in MimeText(mimeType)
    ensures ReadResponse(FileResponse(mimeType, body)) ==
      Some(Response(OK_STATUS_LINE, FileHeaders(mimeType, body), body))
  {
    var lines := [OK_STATUS_LINE] + FileHeaders(mimeType, body);
    FileResponseLayout(mimeType, body);
    FileHeadReadable(mimeType, body);
    ReadHead(lines, body);
    assert lines[1..] == FileHeaders(mimeType, body);
  }

  /** The lines of the `200 OK` head can be read back when the content type holds no carriage return. */
  lemma FileHeadReadable(mimeType: Option<seq<byte>>, body: seq<byte>)
    requires CR !in MimeText(mimeType)
    ensures ReadableLines([OK_STATUS_LINE] + FileHeaders(mimeType, body))
  {
    var n := Decimal(|body|);
    DigitsHaveNoCr(n);
    HeadLinesHaveNoCr();
    ReadableFour(OK_STATUS_LINE, CONTENT_TYPE_FIELD + MimeText(mimeType), CONTENT_LENGTH_FIELD + n, CLOSE_LINE);
    assert [OK_STATUS_LINE] + FileHeaders(mimeType, body)
      == [OK_STATUS_LINE, CONTENT_TYPE_FIELD + MimeText(mimeType), CONTENT_LENGTH_FIELD + n, CLOSE_LINE];
  }

  /** Four non-empty lines without a carriage return are readable. */
  lemma ReadableFour(a: seq<byte>, b: seq<byte>, c: seq<byte>, e: seq<byte>)
    requires a != [] && b != [] && c != [] && e != []
    requires CR !in a && CR !in b && CR !in c && CR !in e
    ensures ReadableLines([a, b, c, e])
  {
  }

  /** Decimal digits hold no carriage return. */
  lemma DigitsHaveNoCr(n: seq<byte>)
    requires forall i | 0 <= i < |n| :: IsDigit(n[i])
    ensures CR !in n
  {
    forall i | 0 <= i < |n| ensures n[i] != CR {
      assert IsDigit(n[i]);
    }
  }

  /** The fixed lines of the `200 OK` head hold no carriage return and are not empty. */
  lemma HeadLinesHaveNoCr()
    ensures CR !in OK_STATUS_LINE && CR !in CONTENT_TYPE_FIELD && CR !in CONTENT_LENGTH_FIELD && CR !in CLOSE_LINE
    ensures OK_STATUS_LINE != [] && CONTENT_TYPE_FIELD != [] && CONTENT_LENGTH_FIELD != [] && CLOSE_LINE != []
  {
    CarriageFree("HTTP/1.1 200 OK");
    CarriageFree("Content-Type: ");
    CarriageFree("Content-Length: ");
    CarriageFree("Connection: close");
  }

  /** ASCII text with no carriage return encodes to bytes with no CR. */
  lemma CarriageFree(s: string)
    requires IsAscii(s) && '\r' !in s
    ensures CR !in Ascii(s)
  {
    var r := Ascii(s);
    forall i | 0 <= i < |r| ensures r[i] != CR {
      assert Decode(r)[i] == s[i];
    }
  }

  /**
   * The headers of the `200 OK` frame declare the content type and a
   * `Content-Length` whose digits count exactly the body's bytes.
   */
  lemma FileHeadersDeclare(mimeType: Option<seq<byte>>, body: seq<byte>)
    ensures HeaderValue(FileHeaders(mimeType, body), CONTENT_TYPE) == Some(MimeText(mimeType))
    ensures var length := HeaderValue(FileHeaders(mimeType, body), CONTENT_LENGTH);
      length == Some(Decimal(|body|)) && DigitsValue(length.value) == |body|
  {
    FileHeaderValues(MimeText(mimeType), Decimal(|body|));
    DecimalRoundTrip(|body|);
  }

  /** Content type and length are found under their own names. */
  lemma FileHeaderValues(m: seq<byte>, n: seq<byte>)
    ensures var headers := [CONTENT_TYPE_FIELD + m, CONTENT_LENGTH_FIELD + n, CLOSE_LINE];
      HeaderValue(headers, CONTENT_TYPE) == Some(m) && HeaderValue(headers, CONTENT_LENGTH) == Some(n)
  {
    var headers := [CONTENT_TYPE_FIELD + m, CONTENT_LENGTH_FIELD + n, CLOSE_LINE];
    assert CONTENT_TYPE_FIELD == CONTENT_TYPE + HEADER_SEPARATOR;
    assert CONTENT_LENGTH_FIELD == CONTENT_LENGTH + HEADER_SEPARATOR;
    assert headers[0][8] != CONTENT_LENGTH_FIELD[8];
    assert !StartsWith(headers[0], CONTENT_LENGTH + HEADER_SEPARATOR);
    assert headers[1..][0] == headers[1];
  }

  /**
   * Replacing `t` cuts `s` at the occurrences of `t` and joins the pieces
   * with `x`: the same pieces joined with `t` give `s` back, and none of
   * them holds `t`.
   */
  lemma ReplaceCutsAtTarget(s: seq<byte>, t: seq<byte>, x: seq<byte>)
    requires |t| > 0
    ensures exists pieces: seq<seq<byte>> | |pieces| >= 1 ::
      && Join(pieces, t) == s
      && Replace(s, t, x) == Join(pieces, x)
      && forall i, k | 0 <= i < |pieces| :: !MatchesAt(pieces[i], t, k)
  {
    var pieces := SplitAll(s, t);
    JoinSplitAll(s, t);
    ReplaceIsJoin(s, t, x);
    forall i, k | 0 <= i < |pieces| ensures !MatchesAt(pieces[i], t, k) {
      SplitAllPiecesFree(s, t, i, k);
    }
  }

  /**
   * `/classic.html` is served as its template with the timestamp in place of
   * every `{time}`, in a `200 OK` frame whose headers declare the substituted
   * body's length.
   */
  lemma ClassicPage(files: map<string, StaticFile>, now: seq<byte>)
    requires CLASSIC in files && CR !in MimeText(files[CLASSIC].mimeType)
    ensures var body := Replace(files[CLASSIC].content, TIME_TOKEN, now);
      && DefaultHandler(files, CLASSIC, now).Some?
      && ReadResponse(DefaultHandler(files, CLASSIC, now).value) ==
           Some(Response(OK_STATUS_LINE, FileHeaders(files[CLASSIC].mimeType, body), body))
  {
    var file := files[CLASSIC];
    FileResponseReads(file.mimeType, Replace(file.content, TIME_TOKEN, now));
  }

  /**
   * Any other public file is served as its bytes in a `200 OK` frame whose
   * headers declare the file's size.
   */
  lemma StaticPage(files: map<string, StaticFile>, path: string, now: seq<byte>)
    requires path in files && path != CLASSIC && CR !in MimeText(files[path].mimeType)
    ensures && DefaultHandler(files, path, now).Some?
            && ReadResponse(DefaultHandler(files, path, now).value) ==
                 Some(Response(OK_STATUS_LINE, FileHeaders(files[path].mimeType, files[path].content), files[path].content))
  {
    FileResponseReads(files[path].mimeType, files[path].content);
  }
}
