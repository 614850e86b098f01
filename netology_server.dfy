/**
 * The earlier server of ru/netology/Server.java: it reads only the request
 * line, splits it on single spaces, and answers from the public list alone,
 * with no route table, no method check and no query stripping.
 */
module NetologyServer {
  import opened Wrappers
  import opened Seqs
  import opened Bytes
  import opened Requests
  import opened Responses

  /** The 404 frame, written out as literal lines. */
  const NOT_FOUND_FRAME: seq<byte> :=
    Ascii("HTTP/1.1 404 Not Found\r\n") + Ascii("Content-Length: 0\r\n") + Ascii("Connection: close\r\n") + Ascii("\r\n")

  /**
   * `handleConnection`: the bytes written to the client, given the request
   * line `readLine` returned (None at end of stream, where the split throws
   * before anything is written). A line that does not split into three
   * tokens gets nothing; a second token outside the public list gets the 404
   * frame; a public path is served as `defaultHandler` serves it, and a file
   * that cannot be read ends the connection with nothing written.
   */
  function HandleConnection(requestLine: Option<string>, files: map<string, StaticFile>, now: seq<byte>): (written: seq<byte>)
    ensures requestLine.None? ==> written == []
  {
    match requestLine
    case None => []
    case Some(line) =>
      var parts := Split(line, " ");
      if |parts| != 3 then []
      else
        var path := parts[1];
        if path !in PUBLIC_PATHS then NOT_FOUND_FRAME
        else
          match DefaultHandler(files, path, now)
          case None => []
          case Some(bytes) => bytes
  }

  /** A request line that does not split into exactly three tokens gets no answer. */
  lemma WrongTokenCountIsSilent(line: string, files: map<string, StaticFile>, now: seq<byte>)
    requires |Split(line, " ")| != 3
    ensures HandleConnection(Some(line), files, now) == []
  {
  }

  /**
   * The answer depends on the second token only: lines with any method and
   * any version but the same path get the same bytes.
   */
  lemma OnlyPathMatters(a: string, b: string, files: map<string, StaticFile>, now: seq<byte>)
    requires |Split(a, " ")| == 3 && |Split(b, " ")| == 3
    requires Split(a, " ")[1] == Split(b, " ")[1]
    ensures HandleConnection(Some(a), files, now) == HandleConnection(Some(b), files, now)
  {
  }

  /** No public path carries a query. */
  lemma PublicPathsHaveNoQuery(path: string)
    requires path in PUBLIC_PATHS
    ensures '?' !in path
  {
  }

  /**
   * A request line of three tokens whose second token is not in the public
   * list gets exactly the 404 frame, whatever the method and the version.
   */
  lemma UnlistedPathNotFound(line: string, files: map<string, StaticFile>, now: seq<byte>)
    requires |Split(line, " ")| == 3 && Split(line, " ")[1] !in PUBLIC_PATHS
    ensures HandleConnection(Some(line), files, now) == NOT_FOUND_FRAME
  {
  }

  /**
   * Any method with a path that has a query component gets the 404 frame,
   * even when the path before the query is public: `/index.html?x=1` is not
   * found, with or without spaces after the version.
   */
  lemma QueryMeansNotFound(requestMethod: string, path: string, version: string, trailing: nat,
                           files: map<string, StaticFile>, now: seq<byte>)
    requires requestMethod != "" && ' ' !in requestMethod
    requires ' ' !in path && '?' in path && version != "" && ' ' !in version
    ensures HandleConnection(Some(requestMethod + " " + path + " " + version + Spaces(trailing)), files, now) == NOT_FOUND_FRAME
  {
    RequestLineTokens(requestMethod, path, version, trailing);
    if path in PUBLIC_PATHS {
      PublicPathsHaveNoQuery(path);
    }
    UnlistedPathNotFound(requestMethod + " " + path + " " + version + Spaces(trailing), files, now);
  }

  /**
   * The literal 404 frame is the status frame `outContentResponse` builds
   * for `404 Not Found`.
   */
  lemma NotFoundFrameIsStatusFrame()
    ensures NOT_FOUND_FRAME == ContentResponse(Ascii("404"), Ascii("Not Found"))
  {
    StatusLineBytes();
    LineBytes("Content-Length: 0");
    LineBytes("Connection: close");
    assert Ascii("\r\n") == CRLF;
  }

  /** The bytes of the literal status line. */
  lemma StatusLineBytes()
    ensures Ascii("HTTP/1.1 404 Not Found\r\n") == VERSION_PREFIX + Ascii("404") + SP + Ascii("Not Found") + CRLF
  {
    StatusLineText();
    AsciiConcat("HTTP/1.1 ", "404");
    AsciiConcat("HTTP/1.1 404", " ");
    AsciiConcat("HTTP/1.1 404 ", "Not Found");
    LineBytes("HTTP/1.1 404 Not Found");
  }

  /** The literal status line is the version, the code and the reason joined by spaces. */
  lemma StatusLineText()
    ensures "HTTP/1.1 404 Not Found" == "HTTP/1.1 " + "404" + " " + "Not Found"
    ensures "HTTP/1.1 404" == "HTTP/1.1 " + "404" && "HTTP/1.1 404 " == "HTTP/1.1 404" + " "
    ensures "HTTP/1.1 404 Not Found" == "HTTP/1.1 404 " + "Not Found"
  {
  }

  /** A line ended by CRLF encodes as the line's bytes and CRLF. */
  lemma LineBytes(line: string)
    requires IsAscii(line)
    ensures IsAscii(line + "\r\n") && Ascii(line + "\r\n") == Ascii(line) + CRLF
  {
    AsciiConcat(line, "\r\n");
    assert Ascii("\r\n") == CRLF;
  }

  /**
   * A client reading the 404 frame finds `HTTP/1.1 404 Not Found`, a zero
   * `Content-Length` and no body.
   */
  lemma NotFoundFrameReads()
    ensures ReadResponse(NOT_FOUND_FRAME) ==
      Some(Response(VERSION_PREFIX + Ascii("404") + SP + Ascii("Not Found"),
                    [ZERO_LENGTH_LINE, CLOSE_LINE], []))
  {
    NotFoundFrameIsStatusFrame();
    ContentResponseReads(Ascii("404"), Ascii("Not Found"));
  }

  /**
   * A public path whose file can be read is answered with the frame the
   * static responder of Server.java writes for it.
   */
  lemma PublicPathServed(line: string, files: map<string, StaticFile>, now: seq<byte>)
    requires |Split(line, " ")| == 3 && Split(line, " ")[1] in PUBLIC_PATHS && Split(line, " ")[1] in files
    ensures Some(HandleConnection(Some(line), files, now)) == DefaultHandler(files, Split(line, " ")[1], now)
  {
  }
}
