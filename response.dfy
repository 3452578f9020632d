/**
 * The responses of `handle_connection`. Every `format!` of the route table
 * has the same layout: a status line, header fields `<name>: <value>`, each
 * line ended by CRLF, the optional `Connection: close` line, the empty line,
 * then the body. `Frame` is that layout. The literal lemmas show that each
 * response is byte for byte the source's format string; `FrameFramed` and
 * the lemmas after it show that a reader using the handler's own parsing
 * rules finds the end of the head, a declared length equal to the number of
 * bytes after it, and the close option exactly when it was sent.
 */
module Response {
  import opened Bytes
  import opened Text
  import opened Request

  const OK := "HTTP/1.1 200 OK"
  const CREATED := "HTTP/1.1 201 Created"
  const NOT_FOUND := "HTTP/1.1 404 Not Found"
  const SERVER_ERROR := "HTTP/1.1 500 Internal Server Error"
  const CLOSE_LINE := "Connection: close"

  /** A header field, sent as the line `<name>: <value>`. */
  datatype Field = Field(name: string, value: string)

  function FieldLine(f: Field): string {
    f.name + ": " + f.value
  }

  function FieldLines(fs: seq<Field>): (ls: seq<string>)
    ensures |ls| == |fs| && forall i :: 0 <= i < |fs| ==> ls[i] == FieldLine(fs[i])
  {
    seq(|fs|, i requires 0 <= i < |fs| => FieldLine(fs[i]))
  }

  const TEXT_PLAIN := Field("Content-Type", "text/plain")
  const OCTET_STREAM := Field("Content-Type", "application/octet-stream")
  const GZIP_ENCODING := Field("Content-Encoding", "gzip")

  /** `Content-Length: {}` with the length in decimal. */
  function ContentLengthField(k: nat): Field {
    Field("Content-Length", Decimal(k))
  }

  /** `connection_header`: the text put before the empty line when the client asked to close. */
  function ConnectionHeader(close: bool): string {
    if close then "Connection: close\r\n" else ""
  }

  function ConnectionLines(close: bool): seq<string> {
    if close then [CLOSE_LINE] else []
  }

  /** The lines of the head before the empty line. */
  function HeadLines(status: string, fields: seq<Field>, close: bool): seq<string> {
    [status] + FieldLines(fields) + ConnectionLines(close)
  }

  /** The head lines and the empty line, each ended by CRLF, then the body. */
  function Frame(status: string, fields: seq<Field>, close: bool, body: seq<byte>): seq<byte> {
    Encode(JoinLines(HeadLines(status, fields, close) + [""])) + body
  }

  /** A response with a status line and no body (200 for `/`, 201, 404, 500). */
  function StatusOnly(status: string, close: bool): seq<byte> {
    Frame(status, [], close, [])
  }

  /** The plain `/echo/<v>` and `/user-agent` responses. */
  function PlainText(text: string, close: bool): seq<byte> {
    Frame(OK, [TEXT_PLAIN, ContentLengthField(|Encode(text)|)], close, Encode(text))
  }

  /** The compressed `/echo/<v>` response. */
  function GzipText(compressed: seq<byte>, close: bool): seq<byte> {
    Frame(OK, [TEXT_PLAIN, GZIP_ENCODING, ContentLengthField(|compressed|)], close, compressed)
  }

  /** The `GET /files/<name>` response for a file that was read. */
  function FileBody(contents: seq<byte>, close: bool): seq<byte> {
    Frame(OK, [OCTET_STREAM, ContentLengthField(|contents|)], close, contents)
  }

  /** Putting the body after a frame without one gives the frame with that body (`resp.extend`). */
  lemma FrameExtend(status: string, fields: seq<Field>, close: bool, body: seq<byte>)
    ensures Frame(status, fields, close, []) + body == Frame(status, fields, close, body)
  {
    var h := Encode(JoinLines(HeadLines(status, fields, close) + [""]));
    assert h + [] == h;
  }

  // ---------------------------------------------------------------------
  // The format strings

  lemma HeadText(status: string, fields: seq<Field>, close: bool)
    ensures JoinLines(HeadLines(status, fields, close) + [""])
            == JoinLines([status] + FieldLines(fields)) + ConnectionHeader(close) + "\r\n"
  {
    var lines := [status] + FieldLines(fields);
    JoinLinesAppend(lines + ConnectionLines(close), [""]);
    JoinLinesAppend(lines, ConnectionLines(close));
    JoinLines1("");
    if close {
      JoinLines1(CLOSE_LINE);
    }
  }

  lemma TextPlainLine()
    ensures FieldLine(TEXT_PLAIN) == "Content-Type: text/plain"
  {
    var a, b := FieldLine(TEXT_PLAIN), "Content-Type: text/plain";
    forall i | 0 <= i < |a| ensures a[i] == b[i] { }
  }

  lemma OctetStreamLine()
    ensures FieldLine(OCTET_STREAM) == "Content-Type: application/octet-stream"
  {
    OctetStreamPrefix();
    OctetStreamSuffix();
    Rejoin("Content-Type: application/octet-stream", 14);
  }

  lemma OctetStreamPrefix()
    ensures "Content-Type: application/octet-stream"[..14] == OCTET_STREAM.name + ": "
  {
  }

  lemma OctetStreamSuffix()
    ensures "Content-Type: application/octet-stream"[14..] == OCTET_STREAM.value
  {
  }

  lemma Rejoin(s: string, k: nat)
    requires k <= |s|
    ensures s == s[..k] + s[k..]
  {
  }

  lemma GzipEncodingLine()
    ensures FieldLine(GZIP_ENCODING) == "Content-Encoding: gzip"
  {
    var a, b := FieldLine(GZIP_ENCODING), "Content-Encoding: gzip";
    forall i | 0 <= i < |a| ensures a[i] == b[i] { }
  }

  lemma ContentLengthLine(k: nat)
    ensures FieldLine(ContentLengthField(k)) == "Content-Length: " + Decimal(k)
  {
    assert "Content-Length" + ": " == "Content-Length: ";
  }

  lemma StatusOnlyBytes(status: string, close: bool)
    ensures StatusOnly(status, close) == Encode(status + "\r\n" + ConnectionHeader(close) + "\r\n")
  {
    HeadText(status, [], close);
    assert [status] + FieldLines([]) == [status];
    JoinLines1(status);
    var h := Encode(status + "\r\n" + ConnectionHeader(close) + "\r\n");
    assert h + [] == h;
  }

  /** A response with two header fields, as one format string. */
  lemma Frame2(status: string, f: Field, g: Field, close: bool, body: seq<byte>)
    ensures Frame(status, [f, g], close, body)
            == Encode(status + "\r\n" + FieldLine(f) + "\r\n" + FieldLine(g) + "\r\n"
                      + ConnectionHeader(close) + "\r\n") + body
  {
    HeadText(status, [f, g], close);
    assert [status] + FieldLines([f, g]) == [status, FieldLine(f), FieldLine(g)];
    JoinLines3(status, FieldLine(f), FieldLine(g));
  }

  /** A response with three header fields, as one format string. */
  lemma Frame3(status: string, f: Field, g: Field, h: Field, close: bool, body: seq<byte>)
    ensures Frame(status, [f, g, h], close, body)
            == Encode(status + "\r\n" + FieldLine(f) + "\r\n" + FieldLine(g) + "\r\n" + FieldLine(h) + "\r\n"
                      + ConnectionHeader(close) + "\r\n") + body
  {
    HeadText(status, [f, g, h], close);
    assert [status] + FieldLines([f, g, h]) == [status, FieldLine(f), FieldLine(g), FieldLine(h)];
    JoinLines4(status, FieldLine(f), FieldLine(g), FieldLine(h));
  }

  lemma PlainTextBytes(text: string, close: bool)
    ensures PlainText(text, close)
         == Encode(OK + "\r\n" + "Content-Type: text/plain" + "\r\n"
                   + ("Content-Length: " + Decimal(|Encode(text)|)) + "\r\n"
                   + ConnectionHeader(close) + "\r\n" + text)
  {
    var k := |Encode(text)|;
    TextPlainLine();
    ContentLengthLine(k);
    Frame2(OK, TEXT_PLAIN, ContentLengthField(k), close, Encode(text));
    EncodeAppend(OK + "\r\n" + "Content-Type: text/plain" + "\r\n" + ("Content-Length: " + Decimal(k)) + "\r\n"
                 + ConnectionHeader(close) + "\r\n", text);
  }

  lemma GzipTextBytes(compressed: seq<byte>, close: bool)
    ensures GzipText(compressed, close)
         == Encode(OK + "\r\n" + "Content-Type: text/plain" + "\r\n" + "Content-Encoding: gzip" + "\r\n"
                   + ("Content-Length: " + Decimal(|compressed|)) + "\r\n"
                   + ConnectionHeader(close) + "\r\n") + compressed
  {
    TextPlainLine();
    GzipEncodingLine();
    ContentLengthLine(|compressed|);
    Frame3(OK, TEXT_PLAIN, GZIP_ENCODING, ContentLengthField(|compressed|), close, compressed);
  }

  lemma FileBodyBytes(contents: seq<byte>, close: bool)
    ensures FileBody(contents, close)
         == Encode(OK + "\r\n" + "Content-Type: application/octet-stream" + "\r\n"
                   + ("Content-Length: " + Decimal(|contents|)) + "\r\n"
                   + ConnectionHeader(close) + "\r\n") + contents
  {
    OctetStreamLine();
    ContentLengthLine(|contents|);
    Frame2(OK, OCTET_STREAM, ContentLengthField(|contents|), close, contents);
  }

  // ---------------------------------------------------------------------
  // Reading a response back with the handler's own rules

  /**
   * A response as the request parser of `handle_connection` would read it:
   * the head runs up to and including the first blank line and is ASCII,
   * the length it declares is the number of bytes after it, it carries the
   * close option exactly when `close`, and then `Connection: close` is its
   * last line before the blank line.
   */
  predicate Framed(response: seq<byte>, close: bool) {
    var terminator := Encode(HEADER_TERMINATOR);
    match IndexOf(response, terminator)
    case None => false
    case Some(h) =>
      var head := response[..h + |terminator|];
      IsAsciiBytes(head)
      && ContentLength(Decode(head)) == |response| - |head|
      && (WantsClose(Decode(head)) <==> close)
      && (close ==> EndsWith(Decode(head), CLOSE_LINE + HEADER_TERMINATOR))
  }

  /** A line of a head: not empty, ASCII, without CR or LF, and not asking to close. */
  predicate SafeLine(l: string) {
    l != [] && IsAscii(l) && HasNoLineBreak(l) && !IsCloseLine(l)
  }

  predicate SafeHead(status: string, fields: seq<Field>) {
    SafeLine(status) && forall i :: 0 <= i < |fields| ==> SafeLine(FieldLine(fields[i]))
  }

  lemma {:induction false} JoinLinesAscii(ls: seq<string>)
    requires forall i :: 0 <= i < |ls| ==> IsAscii(ls[i])
    ensures IsAscii(JoinLines(ls))
  {
    if ls != [] {
      JoinLinesAscii(ls[1..]);
      var s := JoinLines(ls);
      assert s == ls[0] + "\r\n" + JoinLines(ls[1..]);
      forall i | 0 <= i < |s| ensures IsAsciiChar(s[i]) {
        if i < |ls[0]| {
          assert s[i] == ls[0][i];
        } else if i >= |ls[0]| + 2 {
          assert s[i] == JoinLines(ls[1..])[i - |ls[0]| - 2];
        }
      }
    }
  }

  /** On ASCII text an occurrence of a text is an occurrence of its bytes, and back. */
  lemma EncodeOccurs(t: string, body: seq<byte>, pat: string, j: nat)
    requires IsAscii(t) && IsAscii(pat) && j + |pat| <= |t|
    ensures OccursAt(Encode(t) + body, Encode(pat), j) <==> OccursAt(t, pat, j)
  {
    EncodeAscii(t);
    EncodeAscii(pat);
    var e, p := Encode(t) + body, Encode(pat);
    if OccursAt(e, p, j) {
      forall i | 0 <= i < |pat| ensures t[j + i] == pat[i] {
        assert e[j..j + |p|][i] == e[j + i];
      }
      assert t[j..j + |pat|] == pat;
    }
    if OccursAt(t, pat, j) {
      forall i | 0 <= i < |p| ensures e[j + i] == p[i] {
        assert t[j..j + |pat|][i] == t[j + i];
      }
      assert e[j..j + |p|] == p;
    }
  }

  lemma CloseLineFacts()
    ensures !SafeLine(CLOSE_LINE)
    ensures IsCloseLine(CLOSE_LINE)
    ensures CLOSE_LINE != [] && IsAscii(CLOSE_LINE) && HasNoLineBreak(CLOSE_LINE)
    ensures !IsContentLengthLine(CLOSE_LINE)
    ensures !IsContentLengthLine("") && !IsCloseLine("")
  {
    CloseLineLower();
    var l := Lower(CLOSE_LINE);
    assert OccursAt(l, CLOSE_OPTION, 0);
    assert l[3] != CONTENT_LENGTH_PREFIX[3];
    assert !StartsWith(l, CONTENT_LENGTH_PREFIX) by {
      if |CONTENT_LENGTH_PREFIX| <= |l| {
        assert l[..|CONTENT_LENGTH_PREFIX|][3] == l[3];
      }
    }
    assert Lower("") == "";
  }

  /** Lowercasing the close line gives the close option. */
  lemma CloseLineLower()
    ensures Lower(CLOSE_LINE) == CLOSE_OPTION
  {
    var l := Lower(CLOSE_LINE);
    forall i | 0 <= i < |l| ensures l[i] == CLOSE_OPTION[i] { }
  }

  lemma HeadLinesShape(status: string, fields: seq<Field>, close: bool)
    requires SafeHead(status, fields)
    ensures var ls := HeadLines(status, fields, close);
            NonBlankLines(ls) && LineFeedFree(ls + [""])
            && forall i :: 0 <= i < |ls + [""]| ==> IsAscii((ls + [""])[i])
  {
    CloseLineFacts();
    var ls := HeadLines(status, fields, close);
    var fl := FieldLines(fields);
    forall i | 0 <= i < |ls| ensures SafeLine(ls[i]) || ls[i] == CLOSE_LINE {
      if 0 < i <= |fl| {
        assert ls[i] == fl[i - 1];
      }
    }
    assert forall i :: 0 <= i < |ls| ==> '\n' !in ls[i];
  }

  /** The text of a frame's head: ASCII, ended by its first blank line. */
  lemma HeadTextShape(status: string, fields: seq<Field>, close: bool)
    requires SafeHead(status, fields)
    ensures IsAscii(JoinLines(HeadLines(status, fields, close) + [""]))
    ensures |JoinLines(HeadLines(status, fields, close) + [""])| >= 4
    ensures IndexOf(JoinLines(HeadLines(status, fields, close) + [""]), HEADER_TERMINATOR)
            == Some(|JoinLines(HeadLines(status, fields, close) + [""])| - 4)
  {
    var ls := HeadLines(status, fields, close);
    var t := JoinLines(ls + [""]);
    HeadLinesShape(status, fields, close);
    JoinLinesAppend(ls, [""]);
    JoinLines1("");
    assert t == JoinLines(ls) + "\r\n";
    FirstBlankLine(ls);
    IndexOfExact(t, HEADER_TERMINATOR, |t| - 4);
    JoinLinesAscii(ls + [""]);
  }

  /**
   * The response `Encode(t) + body` has the ASCII text `t` as its head: the
   * first blank line of the response is the one that ends `t`.
   */
  predicate EncodedHead(t: string, body: seq<byte>) {
    |t| >= 4 && |Encode(t)| == |t| && IsAsciiBytes(Encode(t)) && Decode(Encode(t)) == t
    && |Encode(HEADER_TERMINATOR)| == 4
    && IndexOf(Encode(t) + body, Encode(HEADER_TERMINATOR)) == Some(|t| - 4)
  }

  /** The head text `t` declares `n` body bytes and ends with the close line exactly when `close`. */
  predicate HeadDeclares(t: string, n: nat, close: bool) {
    ContentLength(t) == n
    && (WantsClose(t) <==> close)
    && (close ==> EndsWith(t, CLOSE_LINE + HEADER_TERMINATOR))
  }

  /** An ASCII head ended by its first blank line keeps that blank line first once encoded and followed by a body. */
  lemma EncodedHeadEnd(t: string, body: seq<byte>)
    requires IsAscii(t) && |t| >= 4 && IndexOf(t, HEADER_TERMINATOR) == Some(|t| - 4)
    ensures EncodedHead(t, body)
  {
    var r := Encode(t) + body;
    EncodeAscii(t);
    EncodeAscii(HEADER_TERMINATOR);
    var pat := Encode(HEADER_TERMINATOR);
    forall j | 0 <= j < |t| - 4 ensures !OccursAt(r, pat, j) {
      EncodeOccurs(t, body, HEADER_TERMINATOR, j);
    }
    EncodeOccurs(t, body, HEADER_TERMINATOR, |t| - 4);
    IndexOfExact(r, pat, |t| - 4);
    DecodeEncode(t);
  }

  /** The reading of a response whose head text is `t` and whose first blank line ends `t`. */
  lemma FramedOf(t: string, body: seq<byte>, close: bool)
    requires EncodedHead(t, body)
    requires HeadDeclares(t, |body|, close)
    ensures Framed(Encode(t) + body, close)
  {
    assert (Encode(t) + body)[..|t|] == Encode(t);
  }


  /** The close line and the empty line after the head do not change the declared length. */
  lemma FrameContentLength(status: string, fields: seq<Field>, close: bool)
    requires SafeHead(status, fields)
    ensures ContentLength(JoinLines(HeadLines(status, fields, close) + [""]))
            == ContentLength(JoinLines(HeadLines(status, fields, false)))
  {
    var base := HeadLines(status, fields, false);
    var tail := ConnectionLines(close) + [""];
    assert HeadLines(status, fields, close) + [""] == base + tail by {
      assert base + [] == base;
    }
    HeadLinesShape(status, fields, false);
    assert LineFeedFree(base) by {
      forall i | 0 <= i < |base| ensures '\n' !in base[i] {
        assert base[i] == (base + [""])[i];
      }
    }
    CloseLineFacts();
    ContentLengthExtend(base, tail);
  }

  /** Lines without the close option, then the close line when `close`, then the empty line. */
  lemma CloseOfLines(first: seq<string>, close: bool)
    requires LineFeedFree(first)
    requires forall i :: 0 <= i < |first| ==> !IsCloseLine(first[i])
    ensures WantsClose(JoinLines(first + (ConnectionLines(close) + [""]))) <==> close
  {
    TailLineFeedFree(first, close);
    WantsCloseOfJoin(first + (ConnectionLines(close) + [""]));
    TailCloses(first, close);
  }

  lemma TailLineFeedFree(first: seq<string>, close: bool)
    requires LineFeedFree(first)
    ensures LineFeedFree(first + (ConnectionLines(close) + [""]))
  {
    var tail := ConnectionLines(close) + [""];
    var ls := first + tail;
    CloseLineFacts();
    assert LineFeedFree(tail);
    forall i | 0 <= i < |ls| ensures '\n' !in ls[i] {
      if i >= |first| { assert ls[i] == tail[i - |first|]; }
    }
  }

  /** The request reading of joined lines sees the close option exactly when one of the lines holds it. */
  lemma WantsCloseOfJoin(ls: seq<string>)
    requires LineFeedFree(ls)
    ensures WantsClose(JoinLines(ls)) <==> AnyCloseLine(ls)
  {
    LinesOfJoin(ls);
  }

  lemma TailCloses(first: seq<string>, close: bool)
    requires forall i :: 0 <= i < |first| ==> !IsCloseLine(first[i])
    ensures AnyCloseLine(first + (ConnectionLines(close) + [""])) <==> close
  {
    var tail := ConnectionLines(close) + [""];
    AnyCloseLineAppend(first, tail);
    assert !AnyCloseLine(first);
    CloseLineFacts();
    if close {
      assert IsCloseLine(tail[0]);
    } else {
      assert tail == [""];
    }
  }

  /** The head of a frame carries the close option exactly when the close line was added. */
  lemma FrameWantsClose(status: string, fields: seq<Field>, close: bool)
    requires SafeHead(status, fields)
    ensures WantsClose(JoinLines(HeadLines(status, fields, close) + [""])) <==> close
  {
    var first := [status] + FieldLines(fields);
    assert HeadLines(status, fields, close) + [""] == first + (ConnectionLines(close) + [""]);
    forall i | 0 <= i < |first| ensures SafeLine(first[i]) {
      if i > 0 {
        assert first[i] == FieldLine(fields[i - 1]);
      }
    }
    CloseOfLines(first, close);
  }

  /** With the close option, `Connection: close` is the line right before the blank line. */
  lemma FrameEndsWithClose(status: string, fields: seq<Field>)
    ensures EndsWith(JoinLines(HeadLines(status, fields, true) + [""]), CLOSE_LINE + HEADER_TERMINATOR)
  {
    var first := [status] + FieldLines(fields);
    assert HeadLines(status, fields, true) + [""] == first + [CLOSE_LINE, ""];
    JoinLinesAppend(first, [CLOSE_LINE, ""]);
    JoinLinesCons(CLOSE_LINE, [""]);
    JoinLines1("");
    assert [CLOSE_LINE] + [""] == [CLOSE_LINE, ""];
    var x, y := JoinLines(first), CLOSE_LINE + HEADER_TERMINATOR;
    assert JoinLines([CLOSE_LINE, ""]) == y;
    assert (x + y)[|x + y| - |y|..] == y;
  }

  /** The head text of a frame, encoded and followed by the body, ends at its first blank line. */
  lemma FrameHeadEnd(status: string, fields: seq<Field>, close: bool, body: seq<byte>)
    requires SafeHead(status, fields)
    ensures EncodedHead(JoinLines(HeadLines(status, fields, close) + [""]), body)
  {
    HeadTextShape(status, fields, close);
    EncodedHeadEnd(JoinLines(HeadLines(status, fields, close) + [""]), body);
  }

  /** What the head text of a frame shows about its length field and its close option. */
  lemma HeadFacts(status: string, fields: seq<Field>, close: bool, body: seq<byte>)
    requires SafeHead(status, fields)
    requires ContentLength(JoinLines(HeadLines(status, fields, false))) == |body|
    ensures HeadDeclares(JoinLines(HeadLines(status, fields, close) + [""]), |body|, close)
  {
    FrameContentLength(status, fields, close);
    FrameWantsClose(status, fields, close);
    if close {
      FrameEndsWithClose(status, fields);
    }
  }

  /** Every frame whose head declares its body length reads back as framed. */
  lemma FrameFramed(status: string, fields: seq<Field>, close: bool, body: seq<byte>)
    requires SafeHead(status, fields)
    requires ContentLength(JoinLines(HeadLines(status, fields, false))) == |body|
    ensures Framed(Frame(status, fields, close, body), close)
  {
    FrameHeadEnd(status, fields, close, body);
    HeadFacts(status, fields, close, body);
    FramedOf(JoinLines(HeadLines(status, fields, close) + [""]), body, close);
  }

  // ---------------------------------------------------------------------
  // The lines the handler sends

  /** Printable ASCII without `:`, so without CR or LF either. */
  predicate CleanText(s: string) {
    forall i :: 0 <= i < |s| ==> ' ' <= s[i] <= '~' && s[i] != ':'
  }

  lemma CleanTextFacts(s: string)
    requires CleanText(s)
    ensures IsAscii(s) && HasNoLineBreak(s) && ':' !in s
  {
  }

  /** A status line: not empty, ASCII, no CR or LF, and no `:`. */
  predicate StatusLine(s: string) {
    s != [] && IsAscii(s) && HasNoLineBreak(s) && ':' !in s
  }

  /** A field other than `Connection`: ASCII, no CR, LF or `:` in name or value. */
  predicate PlainField(f: Field) {
    IsAscii(f.name) && IsAscii(f.value) && HasNoLineBreak(f.name) && HasNoLineBreak(f.value)
    && ':' !in f.name && ':' !in f.value && !EndsWith(Lower(f.name), "connection")
  }

  /** Both the close option and the content-length prefix hold a `:`, so a line without one has neither. */
  lemma ColonFreeLine(s: string)
    requires ':' !in s
    ensures !IsCloseLine(s) && !IsContentLengthLine(s)
  {
    var l := Lower(s);
    forall j | 0 <= j ensures !OccursAt(l, CLOSE_OPTION, j) {
      if j + 10 < |l| {
        Mismatch(l, CLOSE_OPTION, j, 10);
      }
    }
    if 14 < |l| {
      Mismatch(l, CONTENT_LENGTH_PREFIX, 0, 14);
    }
  }

  /** The only `:` of a field line is the one after the name. */
  lemma FieldColon(f: Field)
    requires ':' !in f.name && ':' !in f.value
    ensures forall k :: 0 <= k < |FieldLine(f)| ==> (FieldLine(f)[k] == ':' <==> k == |f.name|)
  {
    var l, n := FieldLine(f), |f.name|;
    forall k | 0 <= k < |l| ensures l[k] == ':' <==> k == n {
      if k < n {
        assert l[k] == f.name[k];
      } else if k > n + 1 {
        assert l[k] == f.value[k - n - 2];
      }
    }
  }

  /** A field line asks to close only when its name ends in `connection`. */
  lemma FieldNotClose(f: Field)
    requires ':' !in f.name && ':' !in f.value
    requires !EndsWith(Lower(f.name), "connection")
    ensures !IsCloseLine(FieldLine(f))
  {
    var l, n := FieldLine(f), |f.name|;
    var w := "connection";
    FieldColon(f);
    forall j | 0 <= j ensures !OccursAt(Lower(l), CLOSE_OPTION, j) {
      if j + 10 < |l| && j + 10 != n {
        Mismatch(Lower(l), CLOSE_OPTION, j, 10);
      } else if j + 10 == n {
        var i := Difference(Lower(f.name)[n - 10..], w);
        assert Lower(f.name)[n - 10..][i] == Lower(f.name)[j + i];
        assert l[j + i] == f.name[j + i];
        Mismatch(Lower(l), CLOSE_OPTION, j, i);
      }
    }
  }

  /** A field line is a content-length line exactly when its name is `Content-Length` in any case. */
  lemma FieldContentLength(f: Field)
    requires ':' !in f.name && ':' !in f.value
    ensures IsContentLengthLine(FieldLine(f)) <==> Lower(f.name) == "content-length"
  {
    var l, n := FieldLine(f), |f.name|;
    var p := CONTENT_LENGTH_PREFIX;
    FieldColon(f);
    if IsContentLengthLine(l) {
      assert Lower(l)[..|p|][14] == Lower(l)[14];
      assert n == 14;
      forall i | 0 <= i < 14 ensures Lower(f.name)[i] == p[i] {
        assert Lower(l)[..|p|][i] == Lower(l)[i];
        assert l[i] == f.name[i];
      }
    }
    if Lower(f.name) == "content-length" {
      forall i | 0 <= i < |p| ensures Lower(l)[i] == p[i] {
        if i < 14 {
          assert l[i] == f.name[i];
        }
      }
      assert Lower(l)[..|p|] == p;
    }
  }

  lemma PlainFieldSafe(f: Field)
    requires PlainField(f)
    ensures SafeLine(FieldLine(f))
    ensures IsContentLengthLine(FieldLine(f)) <==> Lower(f.name) == "content-length"
  {
    var l := FieldLine(f);
    FieldNotClose(f);
    FieldContentLength(f);
    forall i | 0 <= i < |l| ensures IsAsciiChar(l[i]) && l[i] != '\r' && l[i] != '\n' {
      if i < |f.name| {
        assert l[i] == f.name[i];
      } else if i >= |f.name| + 2 {
        assert l[i] == f.value[i - |f.name| - 2];
      }
    }
  }

  lemma StatusLines()
    ensures StatusLine(OK)
    ensures StatusLine(CREATED)
    ensures StatusLine(NOT_FOUND)
    ensures StatusLine(SERVER_ERROR)
  {
    CleanStatus(OK);
    CleanStatus(CREATED);
    CleanStatus(NOT_FOUND);
    CleanStatus(SERVER_ERROR);
    CleanTextFacts(OK);
    CleanTextFacts(CREATED);
    CleanTextFacts(NOT_FOUND);
    CleanTextFacts(SERVER_ERROR);
  }

  /** Each status line is printable ASCII without a `:`. */
  lemma CleanStatus(status: string)
    requires status in {OK, CREATED, NOT_FOUND, SERVER_ERROR}
    ensures CleanText(status)
  {
    if status == OK {
      forall i | 0 <= i < |OK| ensures ' ' <= OK[i] <= '~' && OK[i] != ':' { }
    } else if status == CREATED {
      forall i | 0 <= i < |CREATED| ensures ' ' <= CREATED[i] <= '~' && CREATED[i] != ':' { }
    } else if status == NOT_FOUND {
      forall i | 0 <= i < |NOT_FOUND| ensures ' ' <= NOT_FOUND[i] <= '~' && NOT_FOUND[i] != ':' { }
    } else {
      forall i | 0 <= i < |SERVER_ERROR| ensures ' ' <= SERVER_ERROR[i] <= '~' && SERVER_ERROR[i] != ':' { }
    }
  }

  lemma TextPlainField()
    ensures PlainField(TEXT_PLAIN) && Lower(TEXT_PLAIN.name) != "content-length"
  {
    var n, v := TEXT_PLAIN.name, TEXT_PLAIN.value;
    forall i | 0 <= i < |n| ensures ' ' <= n[i] <= '~' && n[i] != ':' { }
    forall i | 0 <= i < |v| ensures ' ' <= v[i] <= '~' && v[i] != ':' { }
    CleanTextFacts(n);
    CleanTextFacts(v);
    assert Lower(n)[11] == 'e';
  }

  lemma OctetStreamField()
    ensures PlainField(OCTET_STREAM) && Lower(OCTET_STREAM.name) != "content-length"
  {
    var n, v := OCTET_STREAM.name, OCTET_STREAM.value;
    forall i | 0 <= i < |n| ensures ' ' <= n[i] <= '~' && n[i] != ':' { }
    forall i | 0 <= i < |v| ensures ' ' <= v[i] <= '~' && v[i] != ':' { }
    CleanTextFacts(n);
    CleanTextFacts(v);
    assert Lower(n)[11] == 'e';
  }

  lemma GzipEncodingField()
    ensures PlainField(GZIP_ENCODING) && Lower(GZIP_ENCODING.name) != "content-length"
  {
    var n, v := GZIP_ENCODING.name, GZIP_ENCODING.value;
    forall i | 0 <= i < |n| ensures ' ' <= n[i] <= '~' && n[i] != ':' { }
    forall i | 0 <= i < |v| ensures ' ' <= v[i] <= '~' && v[i] != ':' { }
    CleanTextFacts(n);
    CleanTextFacts(v);
    assert Lower(n)[15] == 'g';
  }

  lemma ContentLengthFieldPlain(k: nat)
    ensures PlainField(ContentLengthField(k)) && Lower(ContentLengthField(k).name) == "content-length"
  {
    var n, v := ContentLengthField(k).name, ContentLengthField(k).value;
    forall i | 0 <= i < |n| ensures ' ' <= n[i] <= '~' && n[i] != ':' { }
    forall i | 0 <= i < |v| ensures ' ' <= v[i] <= '~' && v[i] != ':' {
      assert IsDigit(v[i]);
    }
    CleanTextFacts(n);
    CleanTextFacts(v);
    assert Lower(n)[13] == 'h';
    var l := Lower(n);
    forall i | 0 <= i < 14 ensures l[i] == "content-length"[i] { }
  }

  // ---------------------------------------------------------------------
  // Every response of the route table reads back as framed

  /** The responses without a body declare none. */
  lemma StatusOnlyFramed(status: string, close: bool)
    requires StatusLine(status)
    ensures Framed(StatusOnly(status, close), close)
  {
    ColonFreeLine(status);
    assert HeadLines(status, [], false) == [status];
    ContentLengthAbsent([status]);
    FrameFramed(status, [], close, []);
  }

  /** `200 OK`, then fields ending in `Content-Length`, declaring the body that follows. */
  lemma DeclaredFramed(fields: seq<Field>, k: nat, close: bool, body: seq<byte>)
    requires forall i :: 0 <= i < |fields| ==> PlainField(fields[i]) && Lower(fields[i].name) != "content-length"
    requires k == |body| && k <= USIZE_MAX
    ensures Framed(Frame(OK, fields + [ContentLengthField(k)], close, body), close)
  {
    var all := fields + [ContentLengthField(k)];
    var l := FieldLine(ContentLengthField(k));
    StatusLines();
    ColonFreeLine(OK);
    ContentLengthFieldPlain(k);
    PlainFieldSafe(ContentLengthField(k));
    forall i | 0 <= i < |all| ensures SafeLine(FieldLine(all[i])) {
      PlainFieldSafe(all[i]);
    }
    var before := [OK] + FieldLines(fields);
    forall i | 0 <= i < |before| ensures !IsContentLengthLine(before[i]) && '\n' !in before[i] {
      if i > 0 {
        PlainFieldSafe(fields[i - 1]);
      }
    }
    assert FieldLines(all) == FieldLines(fields) + [l];
    assert HeadLines(OK, all, false) == before + [l] + [];
    ContentLengthLine(k);
    DeclaredLengthOfHeader(k);
    ContentLengthFirstWins(before, l, []);
    FrameFramed(OK, all, close, body);
  }

  lemma PlainTextFramed(text: string, close: bool)
    requires |Encode(text)| <= USIZE_MAX
    ensures Framed(PlainText(text, close), close)
  {
    TextPlainField();
    assert [TEXT_PLAIN] + [ContentLengthField(|Encode(text)|)] == [TEXT_PLAIN, ContentLengthField(|Encode(text)|)];
    DeclaredFramed([TEXT_PLAIN], |Encode(text)|, close, Encode(text));
  }

  lemma GzipTextFramed(compressed: seq<byte>, close: bool)
    requires |compressed| <= USIZE_MAX
    ensures Framed(GzipText(compressed, close), close)
  {
    TextPlainField();
    GzipEncodingField();
    var k := |compressed|;
    assert [TEXT_PLAIN, GZIP_ENCODING] + [ContentLengthField(k)] == [TEXT_PLAIN, GZIP_ENCODING, ContentLengthField(k)];
    DeclaredFramed([TEXT_PLAIN, GZIP_ENCODING], k, close, compressed);
  }

  lemma FileBodyFramed(contents: seq<byte>, close: bool)
    requires |contents| <= USIZE_MAX
    ensures Framed(FileBody(contents, close), close)
  {
    OctetStreamField();
    assert [OCTET_STREAM] + [ContentLengthField(|contents|)] == [OCTET_STREAM, ContentLengthField(|contents|)];
    DeclaredFramed([OCTET_STREAM], |contents|, close, contents);
  }
}
