# HTTP/1.1 connection handler

This project models `handle_connection`, the request handler of a small
HTTP/1.1 file and echo server, and proves properties of it. The handler
serves one connection as follows:

- It makes one read of at most 1024 bytes into a zeroed buffer. It takes
  the method and target from the request line. It looks up the first
  `Content-Length` line and looks for a `connection: close` option.
- It finds the first blank line (`\r\n\r\n`) and cuts the body out of the
  fixed buffer. The cut is bounded by the buffer, not by the bytes read. It
  panics when the blank line would start past byte 1020.
- It routes on method and path, top-down:
  - `GET /` answers 200.
  - `GET /echo/<v>` echoes `v`, gzip-compressed when the request accepts gzip.
  - `GET /user-agent` returns the `User-Agent` value.
  - `GET /files/<n>` reads a file under the served directory.
  - `POST /files/<n>` writes the body there.
  - Anything else answers 404.
- It writes one response. Every response carries `Connection: close` as
  its last header exactly when the request asked to close.

Modules, in dependency order:

- `Bytes` holds the byte type, the UTF-8 encoding of strings and its ASCII
  inverse.
- `Text` holds the string operations the handler uses from the Rust
  standard library. These are `lines`, `split_whitespace`, `split(':')`,
  `trim`, `trim_start_matches`, `find`, `contains`, ASCII `to_lowercase`
  and `parse::<usize>`, each with its defining properties.
- `Request` holds the request parser: request line, content length,
  connection close, gzip acceptance, header end, body slice and
  user agent.
- `Router` holds the route table, with the request that selects each route.
- `Response` holds the response layouts. It shows that each response is
  exactly the handler's `format!` text, and that every response reads back,
  under the handler's own parsing rules, with a head that declares its body
  length and carries the close option.
- `Handler` holds `Serve`, the specification of one connection. It also
  holds `Handle`, the imperative handler over the 1024-byte array, proved
  against `Serve`, and the per-connection properties.

The outside world enters as parameters:

- the outcome of the read;
- the filesystem, as a map from path to contents;
- one flag saying whether the operating system refuses the single file
  call;
- the gzip encoder, as a function from bytes to bytes.

The gzip `/echo` response carries `Content-Type: text/plain` ahead of
`Content-Encoding: gzip` (server/src/handler.rs:40), and `Response.GzipText`
has the same two fields in the same order.

## Model

| member | source | states |
|---|---|---|
| `Bytes.Encode` | server/src/handler.rs:42 | a string's byte length is at least its length and at most four times it |
| `Bytes.DecodeEncode` | server/src/handler.rs:13 | on ASCII text the lossy decode of the encoding gives the text back |
| `Bytes.EncodeDecode` | server/src/handler.rs:13 | on ASCII bytes, encoding the decoded text gives the bytes back |
| `Bytes.EncodeLengthIffAscii` | server/src/handler.rs:49 | a byte length (`len()`) equals the character count exactly when the text is ASCII |
| `Text.Lower` | server/src/handler.rs:20 | same length; each ASCII capital moves down 32 code points, every other character is kept, and no capital remains |
| `Text.IndexOf` | server/src/handler.rs:28 | the first position where the pattern occurs, or none exactly when it occurs nowhere |
| `Text.FindFirst` | server/src/handler.rs:18-20 | the first element the predicate accepts, or none exactly when it accepts none |
| `Text.Lines` | server/src/handler.rs:14 | no line holds a line feed, and none is longer than the text |
| `Text.LinesOfJoin` | server/src/handler.rs:14 | `lines` splits CRLF-terminated lines back into exactly those lines |
| `Text.Tokens` | server/src/handler.rs:15 | every token is nonempty and free of Unicode whitespace |
| `Text.TokensOfJoinWords` | server/src/handler.rs:15 | `split_whitespace` of space-joined words gives those words back |
| `Text.TokensSkipWhitespace` | server/src/handler.rs:15 | leading whitespace yields no token |
| `Text.Split` | server/src/handler.rs:21 | there is at least one part, and no part holds the separator |
| `Text.SplitJoin` | server/src/handler.rs:21 | joining the parts with the separator rebuilds the string |
| `Text.SecondField` | server/src/handler.rs:21 | there is no second field exactly when the separator is absent, and the field holds no separator |
| `Text.SecondFieldOf` | server/src/handler.rs:21 | in `a:v` followed by the end or another `:`, the second field is `v` |
| `Text.Trim` | server/src/handler.rs:22 | the result is the input's middle slice, and only whitespace is cut from either end |
| `Text.TrimStartMatches` | server/src/handler.rs:58 | only whole repetitions of the pattern are removed, and the rest no longer starts with it |
| `Text.ParseUsize` | server/src/handler.rs:22 | a parsed value never exceeds `usize::MAX` |
| `Text.ParseDecimal` | server/src/handler.rs:22 | parsing the decimal form of any `usize` gives that number |
| `Text.Decimal` | server/src/handler.rs:40 | `{}` writes a nonempty run of digits that starts with `0` only for the number 0 |
| `Text.DigitsValueOfDecimal` | server/src/handler.rs:40 | the digits written by `{}` have the value printed |
| `Text.FirstBlankLine` | server/src/handler.rs:28 | after nonblank CRLF lines, the first `\r\n\r\n` is the one that ends them |
| `Request.ParseMethod` | server/src/handler.rs:14-16 | the method is empty or a whitespace-free token no longer than the request |
| `Request.ParseRequestLine` | server/src/handler.rs:14-17 | for a request line of one or more space-separated words, the method is the first word and the path the second, or `/` when there is only one word |
| `Request.BlankRequestLine` | server/src/handler.rs:14-17 | an all-whitespace or missing request line gives method `""` and path `/` |
| `Request.ParsePath` | server/src/handler.rs:14-17 | the path is the default `/`, or a nonempty whitespace-free token no longer than the request |
| `Request.DeclaredLength` | server/src/handler.rs:21-23 | a declared length never exceeds `usize::MAX` |
| `Request.ContentLength` | server/src/handler.rs:18-23 | the content length never exceeds `usize::MAX` |
| `Request.ContentLengthFirstWins` | server/src/handler.rs:18-23 | the first line that starts, lowercased, with `content-length:` decides, whatever follows |
| `Request.ContentLengthAbsent` | server/src/handler.rs:18-23 | without such a line the content length is 0 |
| `Request.DeclaredLengthOfHeader` | server/src/handler.rs:18-23 | `Content-Length: <k>` is a content-length line that declares `k` |
| `Request.AnyCloseLineAppend` | server/src/handler.rs:25 | the close option is found in two runs of lines exactly when it is found in one of them |
| `Request.WantsCloseIffContains` | server/src/handler.rs:25 | some lowercased line contains `connection: close` exactly when the lowercased request does |
| `Request.AcceptsGzipAnywhere` | server/src/handler.rs:35 | `accept-encoding: gzip` in any letter case, anywhere in the request (even in the body), selects gzip |
| `Request.HeaderEnd` | server/src/handler.rs:28 | the index of the first `\r\n\r\n`, or the request length when there is none |
| `Request.BodySlice` | server/src/handler.rs:29 | panics (`None`) exactly when `header_end + 4` passes the buffer; otherwise `min(content_length, len - (header_end + 4))` bytes from `header_end + 4` |
| `Request.UserAgent` | server/src/handler.rs:54-59 | the value is trimmed on both ends |
| `Request.UserAgentAbsent` | server/src/handler.rs:54-57 | without a line starting with `User-Agent:` the value is empty |
| `Request.UserAgentHeader` | server/src/handler.rs:54-59 | after lines without the prefix, `User-Agent: <u>` gives `u` trimmed |
| `Request.UserAgentLine` | server/src/handler.rs:56-58 | `User-Agent: <u>` has the prefix, and stripping the lead leaves `u` |
| `Router.RouteOf` | server/src/handler.rs:31-89 | only `GET` and `POST` are routed; a write is chosen exactly for `POST` under `/files/`; echo values and file names are the path after their prefix |
| `Router.RouteOfRequestFor` | server/src/handler.rs:31-88 | no arm shadows another: each route's own request reaches it |
| `Router.RequestForRouteOf` | server/src/handler.rs:31-88 | a routed request is exactly its route's request |
| `Router.NotFoundIff` | server/src/handler.rs:89 | the 404 fallback is taken exactly when no route's request matches |
| `Router.FallThroughExamples` | server/src/handler.rs:33 | `GET /echo`, an empty method and `PUT /files/a` fall through to 404 |
| `Response.FrameExtend` | server/src/handler.rs:43 | extending a bodiless response with bytes gives the response with that body |
| `Response.StatusOnlyBytes` | server/src/handler.rs:32 | a bodiless response is the status line, the optional close line and the empty line |
| `Response.PlainTextBytes` | server/src/handler.rs:47-50 | the plain echo and user-agent responses are exactly their `format!` text |
| `Response.GzipTextBytes` | server/src/handler.rs:39-43 | the gzip echo response is its `format!` head followed by the compressed bytes |
| `Response.FileBodyBytes` | server/src/handler.rs:70-74 | the file response is its `format!` head followed by the file bytes |
| `Response.FrameWantsClose` | server/src/handler.rs:26 | a response head asks to close exactly when the close line was added |
| `Response.FrameEndsWithClose` | server/src/handler.rs:26 | the close line is the last header, just before the empty line |
| `Response.FrameFramed` | server/src/handler.rs:26 | a head of safe lines whose content length is the body's reads back as framed |
| `Response.StatusOnlyFramed` | server/src/handler.rs:78 | 200, 201, 404 and 500 without a body read back with length 0 |
| `Response.PlainTextFramed` | server/src/handler.rs:61-63 | the advertised length of a plain response is its body's byte length |
| `Response.GzipTextFramed` | server/src/handler.rs:40-43 | the advertised length of the gzip response is the compressed length |
| `Response.FileBodyFramed` | server/src/handler.rs:71-74 | the advertised length of the file response is the file length |
| `Handler.Filled` | server/src/handler.rs:8-10 | the buffer after the read is the bytes received followed by zeros, 1024 bytes in all |
| `Handler.FilePathInjective` | server/src/handler.rs:67 | different file names in one directory give different paths |
| `Handler.Receive` | server/src/handler.rs:10 | the read overwrites the front of the buffer with the bytes received and keeps the rest |
| `Handler.Respond` | server/src/handler.rs:31-92 | every route answers with one write; the files change only for a write route the filesystem accepts, at its one path, to the body |
| `Handler.Process` | server/src/handler.rs:12-92 | a nonempty read either panics, leaving the files alone, or sends one response |
| `Handler.Serve` | server/src/handler.rs:10-11 | nothing is written exactly when the read failed or was empty, and then the files are unchanged |
| `Handler.Handle` | server/src/handler.rs:7-96 | the handler's write and new filesystem are exactly what `Serve` specifies for the read |
| `Handler.Answer` | server/src/handler.rs:31-92 | the route `match` and its writes produce exactly what `Respond` specifies |
| `Handler.PanicIff` | server/src/handler.rs:28-29 | the handler panics exactly when there is no blank line and more than 1020 bytes arrived; files are untouched then |
| `Handler.BodyContents` | server/src/handler.rs:28-29 | the body is `min(content_length, 1024 - start)` bytes from `start`; received bytes where there are some, zeros past them |
| `Handler.OnlyPostWrites` | server/src/handler.rs:81-88 | the files change only through an accepted `POST /files/<n>`, which sets that path to the body |
| `Handler.PostStores` | server/src/handler.rs:81-85 | an accepted `POST` answers 201, stores the body at its path, adds only that key and keeps every other file |
| `Handler.PostRefused` | server/src/handler.rs:86 | a refused `POST` answers 500 and changes no file |
| `Handler.PostThenGet` | server/src/handler.rs:65-85 | a `GET` of the name just posted returns the stored body |
| `Handler.Idempotent` | server/src/handler.rs:65-88 | serving the same read again on the resulting files gives the same effect |
| `Handler.EchoResponse` | server/src/handler.rs:33-51 | the echo is gzip-compressed exactly when the lowercased request holds `accept-encoding: gzip`; otherwise it is plain |
| `Handler.GetFileResponse` | server/src/handler.rs:65-79 | a readable file is sent as an octet stream, anything else is 404, and no file changes |
| `Handler.BlankRequestNotFound` | server/src/handler.rs:14-17 | a blank request line routes to the 404 fallback |
| `Handler.BareGetServesRoot` | server/src/handler.rs:17 | a request line of just `GET` takes the default path and is served as `GET /` |
| `Handler.ResponsesFramed` | server/src/handler.rs:31-92 | every response sent declares the length of the bytes after its head and carries `Connection: close` exactly when asked |
| `Handler.RespondFramed` | server/src/handler.rs:31-90 | the same, for every route and answer the `match` can produce |

## Left out

- The listener, the accept loop, argument handling and the thread pool in server/src/main.rs are not modelled. They are socket plumbing and concurrency. The thread pool module is not part of this model.
- `TcpStream` I/O becomes a `ReadResult` parameter and a `Written` outcome. The panics of `.unwrap()` on a failed write lie outside the model.
- The `flate2` gzip encoder becomes a function parameter. Its compression format is not modelled.
- `fs::read` and `fs::write` become a map from path to contents plus one failure flag. Directories, permissions and path normalisation are not modelled.
- `eprintln!` on a failed read is logging only. The model records that nothing is written.
- Handle: requires the received bytes to be ASCII. Lossy UTF-8 decoding of invalid input and Unicode `to_lowercase` are not modelled. On ASCII both are the identity, and `header_end` is a byte index.
- ResponsesFramed: requires every file and every gzip output to be at most `usize::MAX` bytes. A Rust `Vec` cannot be longer, and the model's lengths are unbounded.
- Bytes.Decode: only ASCII bytes are decoded, for the same reason as in Handle.
- Text.ParseUsize: `usize` is taken at its 64-bit width. On a 32-bit build a `Content-Length` above 2^32-1 would fail to parse and count as 0, which the model does not show.
