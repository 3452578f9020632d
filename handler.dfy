/**
 * `handle_connection`: one read of at most 1024 bytes into a zeroed buffer,
 * the parse of the request, the route table, and at most one write of the
 * response; a `POST /files/<name>` also stores the body slice.
 *
 * The outside world is abstracted: what the read returned, a filesystem as
 * a map from path to contents with one oracle saying whether the operating
 * system refuses the file call, and the gzip encoder as a function.
 * `Serve` is the specification of one connection, `Handle` the imperative
 * handler proved against it.
 */
module Handler {
  import opened Bytes
  import opened Text
  import opened Request
  import opened Router
  import opened Response

  /** The length of the buffer the request is read into. */
  const BUFFER_SIZE: nat := 1024

  type FileSystem = map<string, seq<byte>>

  /** What the single `stream.read` reported. */
  datatype ReadResult =
    | ReadFailed               // `Err(e)`: only logged
    | Received(data: seq<byte>) // `Ok(n)`: the `n` bytes put at the front of the buffer

  /** What the connection sees from the handler. */
  datatype Written =
    | Nothing              // no response
    | Panicked             // the body slice panicked before any response was built
    | Sent(bytes: seq<byte>) // one `write_all` of these bytes

  datatype Effect = Effect(written: Written, files: FileSystem)

  /** A read never delivers more than the buffer holds; the request text is taken as ASCII. */
  predicate Deliverable(data: seq<byte>) {
    |data| <= BUFFER_SIZE && IsAsciiBytes(data)
  }

  /** The buffer after the read: the bytes received, then the zeros it was created with. */
  function Filled(data: seq<byte>): (b: seq<byte>)
    requires |data| <= BUFFER_SIZE
    ensures |b| == BUFFER_SIZE
    ensures b[..|data|] == data
    ensures forall k :: |data| <= k < BUFFER_SIZE ==> b[k] == 0
  {
    data + seq(BUFFER_SIZE - |data|, _ => 0)
  }

  /** `format!("{}/{}", directory, filename)`. */
  function FilePath(directory: string, name: string): string {
    directory + "/" + name
  }

  /** Different file names in one directory are different paths. */
  lemma FilePathInjective(directory: string, a: string, b: string)
    ensures FilePath(directory, a) == FilePath(directory, b) ==> a == b
  {
    if FilePath(directory, a) == FilePath(directory, b) {
      var k := |directory| + 1;
      assert FilePath(directory, a)[k..] == a;
      assert FilePath(directory, b)[k..] == b;
    }
  }

  /** What a routed request produces, given its parsed parts. */
  function Respond(route: Route, request: string, body: seq<byte>, close: bool,
                   directory: string, files: FileSystem, fsFails: bool,
                   gzip: seq<byte> -> seq<byte>): (r: Effect)
    ensures r.written.Sent?
    ensures r.files == if route.WriteFile? && !fsFails then files[FilePath(directory, route.name) := body] else files
  {
    match route
    case Root => Effect(Sent(StatusOnly(OK, close)), files)
    case Echo(v) =>
      if AcceptsGzip(request) then Effect(Sent(GzipText(gzip(Encode(v)), close)), files)
      else Effect(Sent(PlainText(v, close)), files)
    case UserAgentPage => Effect(Sent(PlainText(UserAgent(request), close)), files)
    case ReadFile(name) =>
      var path := FilePath(directory, name);
      if !fsFails && path in files then Effect(Sent(FileBody(files[path], close)), files)
      else Effect(Sent(StatusOnly(NOT_FOUND, close)), files)
    case WriteFile(name) =>
      if !fsFails then Effect(Sent(StatusOnly(CREATED, close)), files[FilePath(directory, name) := body])
      else Effect(Sent(StatusOnly(SERVER_ERROR, close)), files)
    case NotFound => Effect(Sent(StatusOnly(NOT_FOUND, close)), files)
  }

  /** The route the request line selects. */
  function RouteFor(request: string): Route {
    RouteOf(ParseMethod(request), ParsePath(request))
  }

  /** The body slice cut from the buffer after a read of `data`; `None` when cutting it panics. */
  function BodyOf(data: seq<byte>): Option<seq<byte>>
    requires Deliverable(data)
  {
    var request := Decode(data);
    BodySlice(Filled(data), HeaderEnd(request), ContentLength(request))
  }

  /** A nonempty read: parse, cut the body slice (or panic), route and respond. */
  function Process(data: seq<byte>, directory: string, files: FileSystem, fsFails: bool,
                   gzip: seq<byte> -> seq<byte>): (r: Effect)
    requires Deliverable(data)
    ensures r.written.Panicked? || r.written.Sent?
    ensures r.written.Panicked? ==> r.files == files
  {
    var request := Decode(data);
    match BodyOf(data)
    case None => Effect(Panicked, files)
    case Some(body) =>
      Respond(RouteFor(request), request, body, WantsClose(request), directory, files, fsFails, gzip)
  }

  /** One connection: nothing happens unless the read delivered at least one byte. */
  function Serve(read: ReadResult, directory: string, files: FileSystem, fsFails: bool,
                 gzip: seq<byte> -> seq<byte>): (r: Effect)
    requires read.Received? ==> Deliverable(read.data)
    ensures r.written.Nothing? <==> read.ReadFailed? || read.data == []
    ensures r.written.Nothing? ==> r.files == files
  {
    match read
    case ReadFailed => Effect(Nothing, files)
    case Received(data) =>
      if |data| == 0 then Effect(Nothing, files)
      else Process(data, directory, files, fsFails, gzip)
  }

  // ---------------------------------------------------------------------
  // The handler

  /** `stream.read(&mut buffer)`: the received bytes overwrite the front of the buffer. */
  method Receive(buffer: array<byte>, data: seq<byte>) returns (n: nat)
    requires |data| <= buffer.Length
    modifies buffer
    ensures n == |data|
    ensures buffer[..] == data + old(buffer[|data|..])
  {
    n := 0;
    while n < |data|
      invariant 0 <= n <= |data|
      invariant buffer[..n] == data[..n]
      invariant buffer[n..] == old(buffer[n..])
    {
      buffer[n] := data[n];
      n := n + 1;
    }
    assert buffer[..] == buffer[..n] + buffer[n..];
  }

  /** `handle_connection`, proved to do what `Serve` specifies. */
  method Handle(read: ReadResult, directory: string, files: FileSystem, fsFails: bool,
                gzip: seq<byte> -> seq<byte>)
    returns (written: Written, files': FileSystem)
    requires read.Received? ==> Deliverable(read.data)
    ensures Effect(written, files') == Serve(read, directory, files, fsFails, gzip)
  {
    files' := files;
    var buffer := new byte[BUFFER_SIZE](_ => 0);
    if read.ReadFailed? {
      written := Nothing;
      return;
    }
    var n := Receive(buffer, read.data);
    if n == 0 {
      written := Nothing;
      return;
    }
    assert buffer[..] == Filled(read.data);
    assert buffer[..n] == read.data;
    var request := Decode(buffer[..n]);
    var verb := ParseMethod(request);
    var path := ParsePath(request);
    var contentLength := ContentLength(request);
    var close := WantsClose(request);
    var headerEnd := HeaderEnd(request);
    var slice := BodySlice(buffer[..], headerEnd, contentLength);
    if slice.None? {
      written := Panicked;
      return;
    }
    written, files' := Answer(RouteOf(verb, path), request, slice.value, close, directory, files, fsFails, gzip);
  }

  /** The `match` of `handle_connection` and its `write_all`s. */
  method Answer(route: Route, request: string, body: seq<byte>, close: bool,
                directory: string, files: FileSystem, fsFails: bool,
                gzip: seq<byte> -> seq<byte>)
    returns (written: Written, files': FileSystem)
    ensures Effect(written, files') == Respond(route, request, body, close, directory, files, fsFails, gzip)
  {
    files' := files;
    var response: seq<byte>;
    match route {
      case Root =>
        response := StatusOnly(OK, close);
      case Echo(value) =>
        if AcceptsGzip(request) {
          var compressed := gzip(Encode(value));
          var fields := [TEXT_PLAIN, GZIP_ENCODING, ContentLengthField(|compressed|)];
          var resp := Frame(OK, fields, close, []);
          resp := resp + compressed;
          FrameExtend(OK, fields, close, compressed);
          written := Sent(resp);
          return;
        } else {
          response := PlainText(value, close);
        }
      case UserAgentPage =>
        response := PlainText(UserAgent(request), close);
      case ReadFile(name) =>
        var filePath := FilePath(directory, name);
        if !fsFails && filePath in files {
          var contents := files[filePath];
          var fields := [OCTET_STREAM, ContentLengthField(|contents|)];
          var resp := Frame(OK, fields, close, []);
          resp := resp + contents;
          FrameExtend(OK, fields, close, contents);
          written := Sent(resp);
          return;
        } else {
          response := StatusOnly(NOT_FOUND, close);
        }
      case WriteFile(name) =>
        if !fsFails {
          files' := files'[FilePath(directory, name) := body];
          response := StatusOnly(CREATED, close);
        } else {
          response := StatusOnly(SERVER_ERROR, close);
        }
      case NotFound =>
        response := StatusOnly(NOT_FOUND, close);
    }
    written := Sent(response);
  }

  // ---------------------------------------------------------------------
  // Properties of one connection

  /** With the blank line inside the buffer the body is cut and the route answers. */
  lemma ProcessRoutes(data: seq<byte>, directory: string, files: FileSystem, fsFails: bool,
                      gzip: seq<byte> -> seq<byte>)
    requires Deliverable(data) && HeaderEnd(Decode(data)) + 4 <= BUFFER_SIZE
    ensures BodyOf(data).Some?
    ensures var request := Decode(data);
            Process(data, directory, files, fsFails, gzip)
            == Respond(RouteFor(request), request, BodyOf(data).value, WantsClose(request),
                       directory, files, fsFails, gzip)
  {
  }

  /** The slice panics exactly when there is no blank line and more than 1020 bytes arrived. */
  lemma PanicIff(data: seq<byte>, directory: string, files: FileSystem, fsFails: bool,
                 gzip: seq<byte> -> seq<byte>)
    requires Deliverable(data) && data != []
    ensures var e := Process(data, directory, files, fsFails, gzip);
            (e.written == Panicked <==>
               !Contains(Decode(data), HEADER_TERMINATOR) && |data| > BUFFER_SIZE - 4)
            && (e.written == Panicked ==> e.files == files)
  {
    var request := Decode(data);
    if Contains(request, HEADER_TERMINATOR) {
      assert HeaderEnd(request) + 4 <= |request|;
    }
  }

  /** One byte of the buffer after the read. */
  lemma FilledAt(data: seq<byte>, k: nat)
    requires |data| <= BUFFER_SIZE && k < BUFFER_SIZE
    ensures Filled(data)[k] == if k < |data| then data[k] else 0
  {
    if k < |data| {
      assert Filled(data)[..|data|][k] == Filled(data)[k];
    }
  }

  /**
   * The body slice: it starts right after the first blank line, is as long
   * as declared but stops at the end of the 1024-byte buffer, and holds zero
   * bytes wherever it reaches past what was received.
   */
  lemma BodyContents(data: seq<byte>)
    requires Deliverable(data) && HeaderEnd(Decode(data)) + 4 <= BUFFER_SIZE
    ensures var request := Decode(data);
            var start := HeaderEnd(request) + 4;
            BodyOf(data).Some?
            && |BodyOf(data).value| == Min(ContentLength(request), BUFFER_SIZE - start)
            && forall i :: 0 <= i < |BodyOf(data).value| ==>
                 BodyOf(data).value[i] == if start + i < |data| then data[start + i] else 0
  {
    FilledSlice(data, HeaderEnd(Decode(data)), ContentLength(Decode(data)));
  }

  /** The slice of the zero-filled buffer, for any header end and declared length. */
  lemma FilledSlice(data: seq<byte>, h: nat, n: nat)
    requires |data| <= BUFFER_SIZE && h + 4 <= BUFFER_SIZE
    ensures BodySlice(Filled(data), h, n).Some?
    ensures |BodySlice(Filled(data), h, n).value| == Min(n, BUFFER_SIZE - (h + 4))
    ensures forall i :: 0 <= i < |BodySlice(Filled(data), h, n).value| ==>
              BodySlice(Filled(data), h, n).value[i] == if h + 4 + i < |data| then data[h + 4 + i] else 0
  {
    var f := Filled(data);
    var b := BodySlice(f, h, n).value;
    forall i | 0 <= i < |b| ensures b[i] == if h + 4 + i < |data| then data[h + 4 + i] else 0 {
      assert b[i] == f[h + 4 + i];
      FilledAt(data, h + 4 + i);
    }
  }

  /**
   * Only a successful `POST /files/<name>` changes the filesystem, and it
   * sets that one path to the body slice.
   */
  lemma OnlyPostWrites(read: ReadResult, directory: string, files: FileSystem, fsFails: bool,
                        gzip: seq<byte> -> seq<byte>)
    requires read.Received? ==> Deliverable(read.data)
    ensures var e := Serve(read, directory, files, fsFails, gzip);
            e.files == files
            || (read.Received? && read.data != [] && !fsFails
                && RouteFor(Decode(read.data)).WriteFile? && BodyOf(read.data).Some?
                && e.files == files[FilePath(directory, RouteFor(Decode(read.data)).name) := BodyOf(read.data).value])
  {
  }

  /** A `POST /files/<name>` the filesystem accepts stores the body slice and answers 201. */
  lemma PostStores(data: seq<byte>, directory: string, files: FileSystem, gzip: seq<byte> -> seq<byte>)
    requires Deliverable(data) && data != [] && HeaderEnd(Decode(data)) + 4 <= BUFFER_SIZE
    requires RouteFor(Decode(data)).WriteFile?
    ensures var e := Process(data, directory, files, false, gzip);
            var path := FilePath(directory, RouteFor(Decode(data)).name);
            e.written == Sent(StatusOnly(CREATED, WantsClose(Decode(data))))
            && path in e.files && e.files[path] == BodyOf(data).value
            && e.files.Keys == files.Keys + {path}
            && forall p :: p in files && p != path ==> e.files[p] == files[p]
  {
    ProcessRoutes(data, directory, files, false, gzip);
  }

  /** When the filesystem refuses, a `POST` answers 500 and changes nothing. */
  lemma PostRefused(data: seq<byte>, directory: string, files: FileSystem, gzip: seq<byte> -> seq<byte>)
    requires Deliverable(data) && data != [] && HeaderEnd(Decode(data)) + 4 <= BUFFER_SIZE
    requires RouteFor(Decode(data)).WriteFile?
    ensures Process(data, directory, files, true, gzip)
            == Effect(Sent(StatusOnly(SERVER_ERROR, WantsClose(Decode(data)))), files)
  {
    ProcessRoutes(data, directory, files, true, gzip);
  }

  /** A `GET /files/<name>` after a `POST` of the same name returns the stored body. */
  lemma PostThenGet(post: seq<byte>, get: seq<byte>, directory: string, files: FileSystem,
                    gzip: seq<byte> -> seq<byte>)
    requires Deliverable(post) && post != [] && HeaderEnd(Decode(post)) + 4 <= BUFFER_SIZE
    requires Deliverable(get) && get != [] && HeaderEnd(Decode(get)) + 4 <= BUFFER_SIZE
    requires RouteFor(Decode(post)).WriteFile?
    requires RouteFor(Decode(get)) == ReadFile(RouteFor(Decode(post)).name)
    ensures var stored := Process(post, directory, files, false, gzip).files;
            Process(get, directory, stored, false, gzip)
            == Effect(Sent(FileBody(BodyOf(post).value, WantsClose(Decode(get)))), stored)
  {
    PostStores(post, directory, files, gzip);
    var stored := Process(post, directory, files, false, gzip).files;
    ProcessRoutes(get, directory, stored, false, gzip);
  }

  /** Serving the same read twice changes nothing the first one did not. */
  lemma Idempotent(read: ReadResult, directory: string, files: FileSystem, fsFails: bool,
                   gzip: seq<byte> -> seq<byte>)
    requires read.Received? ==> Deliverable(read.data)
    ensures var e := Serve(read, directory, files, fsFails, gzip);
            Serve(read, directory, e.files, fsFails, gzip) == e
  {
    if read.Received? && read.data != [] && BodyOf(read.data).Some? {
      var request := Decode(read.data);
      var route, body, close := RouteFor(request), BodyOf(read.data).value, WantsClose(request);
      var e := Respond(route, request, body, close, directory, files, fsFails, gzip);
      RespondAgain(route, request, body, close, directory, files, fsFails, gzip);
    }
  }

  lemma RespondAgain(route: Route, request: string, body: seq<byte>, close: bool,
                     directory: string, files: FileSystem, fsFails: bool, gzip: seq<byte> -> seq<byte>)
    ensures var e := Respond(route, request, body, close, directory, files, fsFails, gzip);
            Respond(route, request, body, close, directory, e.files, fsFails, gzip) == e
  {
    match route
    case Root =>
    case Echo(v) =>
    case UserAgentPage =>
    case ReadFile(name) =>
    case WriteFile(name) =>
      var path := FilePath(directory, name);
      assert files[path := body][path := body] == files[path := body];
    case NotFound =>
  }

  /**
   * `GET /echo/<v>`: gzip and the `Content-Encoding: gzip` header exactly when
   * the lowercased request holds `accept-encoding: gzip`, the plain value otherwise.
   */
  lemma EchoResponse(data: seq<byte>, directory: string, files: FileSystem, fsFails: bool,
                     gzip: seq<byte> -> seq<byte>)
    requires Deliverable(data) && data != [] && HeaderEnd(Decode(data)) + 4 <= BUFFER_SIZE
    requires RouteFor(Decode(data)).Echo?
    ensures var request := Decode(data);
            var v := ParsePath(request)[|ECHO_PREFIX|..];
            var close := WantsClose(request);
            Process(data, directory, files, fsFails, gzip)
            == Effect(Sent(if AcceptsGzip(request) then GzipText(gzip(Encode(v)), close)
                           else PlainText(v, close)), files)
  {
    ProcessRoutes(data, directory, files, fsFails, gzip);
  }

  /**
   * `GET /files/<name>`: the stored bytes as an octet stream when the file can
   * be read, 404 otherwise; the filesystem is left as it was.
   */
  lemma GetFileResponse(data: seq<byte>, directory: string, files: FileSystem, fsFails: bool,
                        gzip: seq<byte> -> seq<byte>)
    requires Deliverable(data) && data != [] && HeaderEnd(Decode(data)) + 4 <= BUFFER_SIZE
    requires RouteFor(Decode(data)).ReadFile?
    ensures var request := Decode(data);
            var path := FilePath(directory, ParsePath(request)[|FILES_PREFIX|..]);
            var close := WantsClose(request);
            Process(data, directory, files, fsFails, gzip)
            == Effect(Sent(if !fsFails && path in files then FileBody(files[path], close)
                           else StatusOnly(NOT_FOUND, close)), files)
  {
    ProcessRoutes(data, directory, files, fsFails, gzip);
  }

  /** A request line without tokens reads as method `""` and path `/`, which is not found. */
  lemma BlankRequestNotFound(data: seq<byte>, directory: string, files: FileSystem, fsFails: bool,
                             gzip: seq<byte> -> seq<byte>)
    requires Deliverable(data) && data != [] && HeaderEnd(Decode(data)) + 4 <= BUFFER_SIZE
    requires forall i :: 0 <= i < |RequestLine(Decode(data))| ==> IsWhitespace(RequestLine(Decode(data))[i])
    ensures Process(data, directory, files, fsFails, gzip)
            == Effect(Sent(StatusOnly(NOT_FOUND, WantsClose(Decode(data)))), files)
  {
    ProcessRoutes(data, directory, files, fsFails, gzip);
    BlankRequestLine(Decode(data));
    assert RouteFor(Decode(data)) == NotFound;
  }

  /** A request line holding only `GET` takes the default path and is served as `GET /`. */
  lemma BareGetServesRoot(rest: string)
    ensures RouteFor("GET\r\n" + rest) == Root
  {
    var ws := ["GET"];
    assert JoinWords(ws) == "GET";
    assert HasNoWhitespace("GET") by {
      forall i | 0 <= i < 3 ensures !IsWhitespace("GET"[i]) {
      }
    }
    ParseRequestLine(ws, rest);
    assert "GET\r\n" + rest == JoinWords(ws) + "\r\n" + rest;
  }

  /**
   * Every response sent reads back, with the handler's own parsing rules,
   * as a head whose declared length is the number of bytes after it and
   * which carries `Connection: close` exactly when the request asked to close.
   */
  lemma ResponsesFramed(data: seq<byte>, directory: string, files: FileSystem, fsFails: bool,
                        gzip: seq<byte> -> seq<byte>)
    requires Deliverable(data) && data != [] && HeaderEnd(Decode(data)) + 4 <= BUFFER_SIZE
    requires forall p :: p in files ==> |files[p]| <= USIZE_MAX
    requires forall b :: |gzip(b)| <= USIZE_MAX
    ensures var e := Process(data, directory, files, fsFails, gzip);
            e.written.Sent? && Framed(e.written.bytes, WantsClose(Decode(data)))
  {
    var request := Decode(data);
    ProcessRoutes(data, directory, files, fsFails, gzip);
    RequestFramed(request, BodyOf(data).value, WantsClose(request), directory, files, fsFails, gzip);
  }

  lemma RequestFramed(request: string, body: seq<byte>, close: bool,
                      directory: string, files: FileSystem, fsFails: bool, gzip: seq<byte> -> seq<byte>)
    requires |request| <= BUFFER_SIZE
    requires forall p :: p in files ==> |files[p]| <= USIZE_MAX
    requires forall b :: |gzip(b)| <= USIZE_MAX
    ensures var e := Respond(RouteFor(request), request, body, close, directory, files, fsFails, gzip);
            e.written.Sent? && Framed(e.written.bytes, close)
  {
    var route := RouteFor(request);
    assert route.Echo? ==> |route.value| <= |request| + 1 by {
      var path := ParsePath(request);
      assert route.Echo? ==> |route.value| <= |path|;
    }
    RespondFramed(route, request, body, close, directory, files, fsFails, gzip);
  }

  lemma RespondFramed(route: Route, request: string, body: seq<byte>, close: bool,
                      directory: string, files: FileSystem, fsFails: bool, gzip: seq<byte> -> seq<byte>)
    requires |request| <= BUFFER_SIZE
    requires route.Echo? ==> |route.value| <= |request| + 1
    requires forall p :: p in files ==> |files[p]| <= USIZE_MAX
    requires forall b :: |gzip(b)| <= USIZE_MAX
    ensures var e := Respond(route, request, body, close, directory, files, fsFails, gzip);
            e.written.Sent? && Framed(e.written.bytes, close)
  {
    StatusLines();
    match route
    case Root => StatusOnlyFramed(OK, close);
    case Echo(v) =>
      if AcceptsGzip(request) {
        GzipTextFramed(gzip(Encode(v)), close);
      } else {
        PlainTextFramed(v, close);
      }
    case UserAgentPage =>
      PlainTextFramed(UserAgent(request), close);
    case ReadFile(name) =>
      var path := FilePath(directory, name);
      if !fsFails && path in files {
        FileBodyFramed(files[path], close);
      } else {
        StatusOnlyFramed(NOT_FOUND, close);
      }
    case WriteFile(name) =>
      if !fsFails {
        StatusOnlyFramed(CREATED, close);
      } else {
        StatusOnlyFramed(SERVER_ERROR, close);
      }
    case NotFound => StatusOnlyFramed(NOT_FOUND, close);
  }
}
