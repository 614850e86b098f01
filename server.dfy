/**
 * The server of Server.java: a route table from method and path to handler,
 * filled in place by `addHandler`, and the decision `handleConnection` makes
 * for each connection between the "Error Request" frame, a registered
 * handler, the "Not Found" frame and the static responder.
 *
 * Handlers are opaque tags of type `H`: the model says which handler runs
 * and with which request, not what it writes.
 */
module Routing {
  import opened Wrappers
  import opened Seqs
  import opened Bytes
  import opened Requests
  import opened Responses

  /** Method, then path, to handler. */
  type RouteTable<H> = map<string, map<string, H>>

  /**
   * How a connection ends: bytes written and flushed, a registered handler
   * called with the request, or an exception before anything was written
   * (a malformed URI, a public file that cannot be read).
   */
  datatype Outcome<H> = Written(bytes: seq<byte>) | Handled(handler: H, request: Request) | Failed

  /** The frame for a request that did not parse or whose method has no routes. */
  const ERROR_REQUEST: seq<byte> := ContentResponse(Ascii("404"), Ascii("Error Request"))

  /** The frame for a path that is neither registered nor public. */
  const NOT_FOUND: seq<byte> := ContentResponse(Ascii("404"), Ascii("Not Found"))

  /** The handler registered for a method and a path, if any. */
  function Route<H>(table: RouteTable<H>, httpMethod: string, path: string): (r: Option<H>)
    ensures r.Some? <==> httpMethod in table && path in table[httpMethod]
    ensures r.Some? ==> r.value == table[httpMethod][path]
  {
    if httpMethod in table && path in table[httpMethod] then Some(table[httpMethod][path]) else None
  }

  /**
   * The table after `addHandler(httpMethod, path, handler)`: the route is
   * `handler`, every other route is as it was, and the method's inner table
   * is created only when it was missing.
   */
  function Register<H>(table: RouteTable<H>, httpMethod: string, path: string, handler: H): (r: RouteTable<H>)
    ensures Route(r, httpMethod, path) == Some(handler)
    ensures forall m, p | m != httpMethod || p != path :: Route(r, m, p) == Route(table, m, p)
    ensures r.Keys == table.Keys + {httpMethod}
    ensures httpMethod !in table ==> r[httpMethod] == map[path := handler]
    ensures httpMethod in table ==> r[httpMethod].Keys == table[httpMethod].Keys + {path}
  {
    var routes := if httpMethod in table then table[httpMethod] else map[];
    table[httpMethod := routes[path := handler]]
  }

  /** Registering the same method and path again replaces the earlier handler. */
  lemma RegisterReplaces<H>(table: RouteTable<H>, httpMethod: string, path: string, first: H, second: H)
    ensures Register(Register(table, httpMethod, path, first), httpMethod, path, second) == Register(table, httpMethod, path, second)
  {
    var once := Register(table, httpMethod, path, first);
    assert once[httpMethod][path := second] == (if httpMethod in table then table[httpMethod] else map[])[path := second];
  }

  /**
   * Registrations under different keys commute: the table does not depend on
   * the order in which distinct routes were added.
   */
  lemma RegisterCommutes<H>(table: RouteTable<H>, m1: string, p1: string, h1: H, m2: string, p2: string, h2: H)
    requires m1 != m2 || p1 != p2
    ensures Register(Register(table, m1, p1, h1), m2, p2, h2) == Register(Register(table, m2, p2, h2), m1, p1, h1)
  {
    if m1 == m2 {
      SameMethodCommutes(table, m1, p1, h1, p2, h2);
    } else {
      OtherMethodsCommute(table, m1, p1, h1, m2, p2, h2);
    }
  }

  /** Two paths under one method: the inner table gets both entries in either order. */
  lemma SameMethodCommutes<H>(table: RouteTable<H>, m: string, p1: string, h1: H, p2: string, h2: H)
    requires p1 != p2
    ensures Register(Register(table, m, p1, h1), m, p2, h2) == Register(Register(table, m, p2, h2), m, p1, h1)
  {
    var inner := if m in table then table[m] else map[];
    var first, second := Register(table, m, p1, h1), Register(table, m, p2, h2);
    assert first[m] == inner[p1 := h1] && second[m] == inner[p2 := h2];
    UpdatesCommute(inner, p1, h1, p2, h2);
  }

  /** Distinct keys of one map can be set in either order. */
  lemma UpdatesCommute<V>(routes: map<string, V>, p1: string, h1: V, p2: string, h2: V)
    requires p1 != p2
    ensures routes[p1 := h1][p2 := h2] == routes[p2 := h2][p1 := h1]
  {
  }

  /** Two methods: each registration touches only its own inner table. */
  lemma OtherMethodsCommute<H>(table: RouteTable<H>, m1: string, p1: string, h1: H, m2: string, p2: string, h2: H)
    requires m1 != m2
    ensures Register(Register(table, m1, p1, h1), m2, p2, h2) == Register(Register(table, m2, p2, h2), m1, p1, h1)
  {
    var inner1 := if m1 in table then table[m1] else map[];
    var inner2 := if m2 in table then table[m2] else map[];
    RegisterThenOther(table, m1, p1, h1, m2, p2, h2);
    RegisterThenOther(table, m2, p2, h2, m1, p1, h1);
    UpdatesCommute(table, m1, inner1[p1 := h1], m2, inner2[p2 := h2]);
  }

  /** Registering under two different methods updates each method's inner table once. */
  lemma RegisterThenOther<H>(table: RouteTable<H>, m1: string, p1: string, h1: H, m2: string, p2: string, h2: H)
    requires m1 != m2
    ensures var inner1 := if m1 in table then table[m1] else map[];
      var inner2 := if m2 in table then table[m2] else map[];
      Register(Register(table, m1, p1, h1), m2, p2, h2) == table[m1 := inner1[p1 := h1]][m2 := inner2[p2 := h2]]
  {
    var once := Register(table, m1, p1, h1);
    assert (m2 in once) == (m2 in table);
    if m2 in table {
      assert once[m2] == table[m2];
    }
  }

  /** The first piece of the Java split on `?` of a path that starts with `/`. */
  lemma QueryFreePrefix(path: string)
    requires StartsWith(path, "/")
    ensures |Split(path, "?")| >= 1
    ensures var r := Split(path, "?")[0]; r <= path && '?' !in r && (r == path || path[|r|] == '?')
  {
    var parts := SplitAll(path, "?");
    var m := FirstMatch(path, "?", 0, |path|);
    SplitAllFirstPiece(path, "?");
    assert !MatchesAt(path, "?", 0) by {
      assert path[0] == '/';
    }
    var first := parts[0];
    assert first != [] && first <= path;
    forall k | 0 <= k < |first| ensures first[k] != '?' {
      assert !MatchesAt(path, "?", k);
      assert path[k..k + 1] == [path[k]];
    }
    if m != -1 {
      assert path[m..m + 1] == "?";
    }
  }

  /**
   * The route key: `path.split("\\?")[0]`, the path up to its first `?`
   * (all of it when there is none).
   */
  function RoutePath(path: string): (r: string)
    requires StartsWith(path, "/")
    ensures r <= path && '?' !in r && (r == path || path[|r|] == '?')
  {
    QueryFreePrefix(path);
    Split(path, "?")[0]
  }

  /** A query component does not change the route key. */
  lemma RoutePathDropsQuery(path: string, query: string)
    requires StartsWith(path, "/") && '?' !in path
    ensures RoutePath(path + "?" + query) == path && RoutePath(path) == path
  {
    var full := path + "?" + query;
    assert StartsWith(full, "/") by {
      assert full[..1] == path[..1];
    }
    var r := RoutePath(full);
    assert forall k | 0 <= k < |path| :: full[k] == path[k] && path[k] != '?';
    assert full[|path|] == '?';
    assert |r| == |path|;
    assert r == full[..|path|] == path;
    assert RoutePath(path) == path;
  }

  /** The bytes the static responder writes, or an exception (nothing written). */
  function Serve<H>(files: map<string, StaticFile>, path: string, now: seq<byte>): (r: Outcome<H>)
    ensures r.Failed? <==> path !in files
    ensures !r.Handled?
  {
    match DefaultHandler(files, path, now)
    case None => Failed
    case Some(bytes) => Written(bytes)
  }

  /**
   * What `handleConnection` does with the result of `createRequest`: a
   * malformed URI throws; a rejected request or an unknown method gets the
   * "Error Request" frame; then the route key picks a registered handler,
   * else a path outside the public list gets "Not Found", else the static
   * responder serves the file.
   */
  function Decide<H>(table: RouteTable<H>, parsed: Parsed, files: map<string, StaticFile>, now: seq<byte>): (r: Outcome<H>)
    requires parsed.Accepted? ==> StartsWith(parsed.request.path, "/")
    ensures r.Handled? ==> parsed.Accepted? && r.request == parsed.request
  {
    match parsed
    case BadUri => Failed
    case Rejected => Written(ERROR_REQUEST)
    case Accepted(request) =>
      if request.httpMethod !in table then Written(ERROR_REQUEST)
      else
        var routes := table[request.httpMethod];
        var key := RoutePath(request.path);
        if key in routes then Handled(routes[key], request)
        else if key !in PUBLIC_PATHS then Written(NOT_FOUND)
        else Serve(files, key, now)
  }

  /**
   * A request that does not parse, or whose method has no routes at all,
   * gets "Error Request", whatever its path.
   */
  lemma ErrorRequestFirst<H>(table: RouteTable<H>, parsed: Parsed, files: map<string, StaticFile>, now: seq<byte>)
    requires parsed.Accepted? ==> StartsWith(parsed.request.path, "/")
    ensures Decide(table, parsed, files, now) == Written(ERROR_REQUEST)
      <==> parsed.Rejected? || (parsed.Accepted? && parsed.request.httpMethod !in table)
  {
    if parsed.Accepted? && parsed.request.httpMethod in table {
      var request := parsed.request;
      var key := RoutePath(request.path);
      var r := Decide(table, parsed, files, now);
      if key in table[request.httpMethod] {
        assert r.Handled?;
      } else if key !in PUBLIC_PATHS {
        assert r == Written(NOT_FOUND);
        FramesDiffer();
      } else {
        assert r == Serve(files, key, now);
        StaticIsNotStatusFrame(files, key, now);
      }
    }
  }

  /** The two 404 frames differ: their reason phrases have different lengths. */
  lemma FramesDiffer()
    ensures ERROR_REQUEST != NOT_FOUND
  {
    assert |ERROR_REQUEST| == 9 + 3 + 1 + 13 + 2 + 17 + 2 + 17 + 2 + 2;
    assert |NOT_FOUND| == 9 + 3 + 1 + 9 + 2 + 17 + 2 + 17 + 2 + 2;
  }

  /** The status code of a frame sits at index 9, after `HTTP/1.1 `: a 2 for the `200 OK` frame. */
  lemma OkCodeAt(mimeType: Option<seq<byte>>, body: seq<byte>)
    ensures FileResponse(mimeType, body)[9] == 50
  {
    var ok := OK_STATUS_LINE;
    assert ok[9] == 50;
    assert FileResponse(mimeType, body)[..|ok|] == ok;
  }

  /** A 4 for both 404 frames. */
  lemma NotFoundCodeAt()
    ensures ERROR_REQUEST[9] == 52 && NOT_FOUND[9] == 52
  {
    var lead := VERSION_PREFIX + Ascii("404");
    assert lead[9] == 52;
    assert ERROR_REQUEST[..|lead|] == lead;
    assert NOT_FOUND[..|lead|] == lead;
  }

  /** What the static responder writes is a `200 OK` frame, never one of the 404 frames. */
  lemma StaticIsNotStatusFrame(files: map<string, StaticFile>, path: string, now: seq<byte>)
    ensures DefaultHandler(files, path, now) != Some(ERROR_REQUEST)
    ensures DefaultHandler(files, path, now) != Some(NOT_FOUND)
  {
    NotFoundCodeAt();
    if path in files {
      var file := files[path];
      var body := if path == CLASSIC then Replace(file.content, TIME_TOKEN, now) else file.content;
      assert DefaultHandler(files, path, now) == Some(FileResponse(file.mimeType, body));
      OkCodeAt(file.mimeType, body);
    }
  }

  /** A malformed URI ends the connection with an exception, whatever the routes. */
  lemma BadUriFails<H>(table: RouteTable<H>, files: map<string, StaticFile>, now: seq<byte>)
    ensures Decide(table, BadUri, files, now) == Failed
  {
  }

  /**
   * For a request whose method has routes: a handler runs exactly when one
   * is registered under the route key, and it is that handler; an
   * unregistered key gets "Not Found" exactly when it is not public; an
   * unregistered public key is served from the files. Registration wins over
   * the public list.
   */
  lemma DecideAccepted<H>(table: RouteTable<H>, request: Request, files: map<string, StaticFile>, now: seq<byte>)
    requires StartsWith(request.path, "/") && request.httpMethod in table
    ensures var key := RoutePath(request.path);
      var route := Route(table, request.httpMethod, key);
      var r := Decide(table, Accepted(request), files, now);
      && (r.Handled? <==> route.Some?)
      && (route.Some? ==> r == Handled(route.value, request))
      && (r == Written(NOT_FOUND) <==> route.None? && key !in PUBLIC_PATHS)
      && (route.None? && key in PUBLIC_PATHS ==> r == Serve(files, key, now))
  {
    var key := RoutePath(request.path);
    var r := Decide(table, Accepted(request), files, now);
    if key in table[request.httpMethod] {
      assert r == Handled(table[request.httpMethod][key], request);
    } else if key !in PUBLIC_PATHS {
      assert r == Written(NOT_FOUND);
    } else {
      assert r == Serve(files, key, now);
      StaticIsNotStatusFrame(files, key, now);
    }
  }

  /**
   * End to end: the bytes of a well-formed request (with or without a query,
   * any trailing spaces, any bytes after the blank line) whose route key is
   * registered for its method reach that handler, with the request's method,
   * full path and header lines.
   */
  lemma RegisteredRouteHandles<H>(table: RouteTable<H>, buffer: seq<byte>, read: int, query: QueryParser,
                                  requestMethod: string, path: string, version: string, trailing: nat,
                                  headers: seq<string>, body: string, handler: H,
                                  files: map<string, StaticFile>, now: seq<byte>)
    requires |buffer| == LIMIT && 0 <= read <= LIMIT
    requires requestMethod in METHODS
    requires StartsWith(path, "/") && ' ' !in path && '\r' !in path && query(path).Some?
    requires Route(table, requestMethod, RoutePath(path)) == Some(handler)
    requires version != "" && ' ' !in version && '\r' !in version
    requires |headers| >= 1 && forall i | 0 <= i < |headers| :: headers[i] != "" && '\r' !in headers[i]
    requires Decode(buffer[..read]) == RequestText(requestMethod, path, version, trailing, headers) + body
    ensures Decide(table, Parse(buffer, read, query), files, now)
      == Handled(handler, Request(requestMethod, path, headers, query(path).value))
  {
    ParseWellFormed(buffer, read, query, requestMethod, path, version, trailing, headers, body);
  }

  /** The server object: its route table, filled in place. */
  class Server<H> {
    var handlers: RouteTable<H>

    /** A new server has no routes. */
    constructor ()
      ensures handlers == map[]
    {
      handlers := map[];
    }

    /** `addHandler`: create the method's inner table when missing, then set the route. */
    method AddHandler(httpMethod: string, path: string, handler: H)
      modifies this
      ensures handlers == Register(old(handlers), httpMethod, path, handler)
    {
      if httpMethod !in handlers {
        handlers := handlers[httpMethod := map[]];
      }
      handlers := handlers[httpMethod := handlers[httpMethod][path := handler]];
    }

    /** `handleConnection` on the bytes a connection delivered. */
    method HandleConnection(buffer: array<byte>, read: int, query: QueryParser,
                            files: map<string, StaticFile>, now: seq<byte>) returns (r: Outcome<H>)
      requires buffer.Length == LIMIT && -1 <= read <= LIMIT
      ensures r == Decide(handlers, Parse(buffer[..], read, query), files, now)
    {
      var parsed := CreateRequest(buffer, read, query);
      if parsed.BadUri? {
        return Failed;
      }
      if parsed.Rejected? || parsed.request.httpMethod !in handlers {
        return Written(ERROR_REQUEST);
      }
      var request := parsed.request;
      var routes := handlers[request.httpMethod];
      var key := RoutePath(request.path);
      if key in routes {
        return Handled(routes[key], request);
      }
      if key !in PUBLIC_PATHS {
        return Written(NOT_FOUND);
      }
      return Serve(files, key, now);
    }
  }
}
