/**
 * Request parsing of `handle_connection`: the request line, the declared
 * body length, the `close` connection option, gzip acceptance, the end of
 * the header block, the body slice and the `User-Agent` value. Every step
 * falls back to a default, so every function here is total.
 */
module Request {
  import opened Bytes
  import opened Text

  /** The blank line that ends the header block. */
  const HEADER_TERMINATOR := "\r\n\r\n"
  const CONTENT_LENGTH_PREFIX := "content-length:"
  const CLOSE_OPTION := "connection: close"
  const GZIP_ACCEPTED := "accept-encoding: gzip"
  const USER_AGENT_PREFIX := "User-Agent:"
  const USER_AGENT_LEAD := "User-Agent: "

  /** The first line of the request, or the empty line when there is none. */
  function RequestLine(request: string): string {
    var ls := Lines(request);
    if ls == [] then "" else ls[0]
  }

  /** The first whitespace-separated token of the request line, `""` when missing. */
  function ParseMethod(request: string): (r: string)
    ensures r == [] || HasNoWhitespace(r)
    ensures |r| <= |request|
  {
    var parts := Tokens(RequestLine(request));
    if |parts| > 0 then parts[0] else ""
  }

  /** The second whitespace-separated token of the request line, `"/"` when missing. */
  function ParsePath(request: string): (r: string)
    ensures r == "/" || (r != [] && HasNoWhitespace(r) && |r| <= |request|)
  {
    var parts := Tokens(RequestLine(request));
    if |parts| > 1 then parts[1] else "/"
  }

  /**
   * A request line of one or more words separated by single spaces: the
   * method is the first word, the path the second, or `/` when there is none.
   */
  lemma ParseRequestLine(ws: seq<string>, rest: string)
    requires |ws| >= 1
    requires forall i :: 0 <= i < |ws| ==> ws[i] != [] && HasNoWhitespace(ws[i])
    ensures ParseMethod(JoinWords(ws) + "\r\n" + rest) == ws[0]
    ensures ParsePath(JoinWords(ws) + "\r\n" + rest) == if |ws| >= 2 then ws[1] else "/"
  {
    var line := JoinWords(ws);
    JoinWordsLineFeedFree(ws);
    LinesCons(line, rest);
    TokensOfJoinWords(ws);
  }

  /** A request whose first line holds no token has the empty verb and the path `/`. */
  lemma BlankRequestLine(request: string)
    requires forall i :: 0 <= i < |RequestLine(request)| ==> IsWhitespace(RequestLine(request)[i])
    ensures ParseMethod(request) == "" && ParsePath(request) == "/"
  {
    var line := RequestLine(request);
    TokensSkipWhitespace(line, "");
    assert line + "" == line;
  }

  // ---------------------------------------------------------------------
  // Content-Length

  predicate IsContentLengthLine(l: string) {
    StartsWith(Lower(l), CONTENT_LENGTH_PREFIX)
  }

  /** The length a content-length line declares: its second `:` field, trimmed, as a `usize`; else 0. */
  function DeclaredLength(l: string): (r: nat)
    ensures r <= USIZE_MAX
  {
    match SecondField(l, ':')
    case None => 0
    case Some(v) =>
      match ParseUsize(Trim(v))
      case None => 0
      case Some(x) => x
  }

  /** The declared body length: from the first content-length line only, 0 when absent or unparsable. */
  function ContentLength(request: string): (r: nat)
    ensures r <= USIZE_MAX
  {
    var ls := Lines(request);
    match FindFirst(ls, IsContentLengthLine)
    case None => 0
    case Some(i) => DeclaredLength(ls[i])
  }

  /** The first content-length line decides; later lines are never consulted. */
  lemma ContentLengthFirstWins(before: seq<string>, l: string, after: seq<string>)
    requires forall i :: 0 <= i < |before| ==> !IsContentLengthLine(before[i])
    requires IsContentLengthLine(l)
    requires LineFeedFree(before) && '\n' !in l && LineFeedFree(after)
    ensures ContentLength(JoinLines(before + [l] + after)) == DeclaredLength(l)
  {
    var ls := before + [l] + after;
    LineFeedFreeAround(before, l, after);
    LinesOfJoin(ls);
    FindFirstAppend(before, l, after, IsContentLengthLine);
  }

  /** Without a content-length line the declared length is 0. */
  lemma ContentLengthAbsent(ls: seq<string>)
    requires forall i :: 0 <= i < |ls| ==> !IsContentLengthLine(ls[i])
    requires LineFeedFree(ls)
    ensures ContentLength(JoinLines(ls)) == 0
  {
    LinesOfJoin(ls);
  }

  /** Appending lines that are not content-length lines keeps the declared length. */
  lemma ContentLengthExtend(a: seq<string>, b: seq<string>)
    requires LineFeedFree(a) && LineFeedFree(b)
    requires forall i :: 0 <= i < |b| ==> !IsContentLengthLine(b[i])
    ensures ContentLength(JoinLines(a + b)) == ContentLength(JoinLines(a))
  {
    assert LineFeedFree(a + b) by {
      forall i | 0 <= i < |a + b| ensures '\n' !in (a + b)[i] {
        if i >= |a| { assert (a + b)[i] == b[i - |a|]; }
      }
    }
    LinesOfJoin(a + b);
    LinesOfJoin(a);
    FindFirstExtend(a, b, IsContentLengthLine);
  }

  lemma ContentLengthHeaderMatches(d: string)
    ensures IsContentLengthLine("Content-Length: " + d)
  {
    var l := "Content-Length: " + d;
    LowerAppend("Content-Length: ", d);
    assert Lower("Content-Length: ") == "content-length: ";
    assert Lower(l)[..15] == Lower("Content-Length: ")[..15];
  }

  lemma ColonFree(d: string)
    requires AllDigits(d)
    ensures Split(" " + d, ':') == [" " + d]
  {
    var s := " " + d;
    forall j | 0 <= j ensures !OccursAt(s, [':'], j) {
      if j < |s| {
        assert s[j] != ':' by {
          if j > 0 { assert s[j] == d[j - 1]; }
        }
        Mismatch(s, [':'], j, 0);
      }
    }
    assert IndexOf(s, [':']) == None;
  }

  lemma HeaderSecondField(d: string)
    requires AllDigits(d)
    ensures SecondField("Content-Length: " + d, ':') == Some(" " + d)
  {
    var l := "Content-Length: " + d;
    assert OccursAt(l, [':'], 14);
    forall j | 0 <= j < 14 ensures !OccursAt(l, [':'], j) {
      assert l[j] == "Content-Length"[j];
    }
    assert IndexOf(l, [':']) == Some(14);
    assert l[15..] == " " + d;
    ColonFree(d);
  }

  lemma TrimDigits(d: string)
    requires d != [] && AllDigits(d)
    ensures Trim(" " + d) == d
  {
    assert (" " + d)[1..] == d;
    assert !IsWhitespace(d[0]);
    assert TrimStart(" " + d) == d;
    assert !IsWhitespace(d[|d| - 1]);
    assert TrimEnd(d) == d;
  }

  /** The header line `Content-Length: <k>` declares exactly `k`. */
  lemma DeclaredLengthOfHeader(k: nat)
    requires k <= USIZE_MAX
    ensures IsContentLengthLine("Content-Length: " + Decimal(k))
    ensures DeclaredLength("Content-Length: " + Decimal(k)) == k
  {
    var d := Decimal(k);
    ContentLengthHeaderMatches(d);
    HeaderSecondField(d);
    TrimDigits(d);
    ParseDecimal(k);
  }

  // ---------------------------------------------------------------------
  // Connection options and content codings

  predicate IsCloseLine(l: string) {
    Contains(Lower(l), CLOSE_OPTION)
  }

  predicate AnyCloseLine(ls: seq<string>) {
    exists i :: 0 <= i < |ls| && IsCloseLine(ls[i])
  }

  /** Some line, lowercased, holds `connection: close`. */
  predicate WantsClose(request: string) {
    AnyCloseLine(Lines(request))
  }

  lemma AnyCloseLineCons(h: string, t: seq<string>)
    ensures AnyCloseLine([h] + t) <==> IsCloseLine(h) || AnyCloseLine(t)
  {
    var ls := [h] + t;
    if AnyCloseLine(t) {
      var i :| 0 <= i < |t| && IsCloseLine(t[i]);
      assert ls[i + 1] == t[i];
    }
    if AnyCloseLine(ls) {
      var i :| 0 <= i < |ls| && IsCloseLine(ls[i]);
      if i > 0 { assert ls[i] == t[i - 1]; }
    }
    assert ls[0] == h;
  }

  lemma AnyCloseLineAppend(a: seq<string>, b: seq<string>)
    ensures AnyCloseLine(a + b) <==> AnyCloseLine(a) || AnyCloseLine(b)
  {
    var ls := a + b;
    if AnyCloseLine(a) {
      var i :| 0 <= i < |a| && IsCloseLine(a[i]);
      assert ls[i] == a[i];
    }
    if AnyCloseLine(b) {
      var i :| 0 <= i < |b| && IsCloseLine(b[i]);
      assert ls[|a| + i] == b[i];
    }
    if AnyCloseLine(ls) {
      var i :| 0 <= i < |ls| && IsCloseLine(ls[i]);
      if i < |a| { assert ls[i] == a[i]; } else { assert ls[i] == b[i - |a|]; }
    }
  }

  /** The lowercased request holds `accept-encoding: gzip` anywhere. */
  predicate AcceptsGzip(request: string) {
    Contains(Lower(request), GZIP_ACCEPTED)
  }

  /**
   * The coding is sniffed over the whole request, not header by header:
   * `accept-encoding: gzip` in any letter case, anywhere (even in the body), is enough.
   */
  lemma AcceptsGzipAnywhere(a: string, h: string, b: string)
    requires Lower(h) == GZIP_ACCEPTED
    ensures AcceptsGzip(a + h + b)
  {
    LowerAppend(a + h, b);
    LowerAppend(a, h);
    var l := Lower(a + h + b);
    assert l == Lower(a) + GZIP_ACCEPTED + Lower(b);
    assert l[|a|..|a| + |GZIP_ACCEPTED|] == GZIP_ACCEPTED;
    assert OccursAt(l, GZIP_ACCEPTED, |a|);
  }

  /** Looking line by line for `connection: close` is the same as looking through the whole text. */
  lemma {:induction false} WantsCloseIffContains(request: string)
    ensures WantsClose(request) <==> Contains(Lower(request), CLOSE_OPTION)
    decreases |request|
  {
    var s := request;
    if s == [] {
      assert !Contains(Lower(s), CLOSE_OPTION);
    } else {
      match IndexOf(s, "\n")
      case None =>
        assert Lines(s) == [s];
        AnyCloseLineCons(s, []);
        assert [s] + [] == [s];
      case Some(k) =>
        var a, rest := s[..k], s[k + 1..];
        assert '\n' !in a by {
          forall j | 0 <= j < |a| ensures a[j] != '\n' {
            assert !OccursAt(s, "\n", j);
            assert a[j] == s[j] && s[j..j + 1] == [s[j]];
          }
        }
        assert s == a + "\n" + rest;
        LinesSplit(a, rest);
        LineStep(a, rest);
        WantsCloseIffContains(rest);
    }
  }

  /** One line and its line feed, then the rest of the request. */
  lemma LineStep(a: string, rest: string)
    requires '\n' !in a
    ensures Contains(Lower(a + "\n" + rest), CLOSE_OPTION)
            <==> IsCloseLine(StripCR(a)) || Contains(Lower(rest), CLOSE_OPTION)
    ensures AnyCloseLine([StripCR(a)] + Lines(rest)) <==> IsCloseLine(StripCR(a)) || WantsClose(rest)
  {
    LowerAppend(a + "\n", rest);
    LowerAppend(a, "\n");
    assert Lower(a + "\n" + rest) == Lower(a) + ['\n'] + Lower(rest);
    ContainsAround(Lower(a), '\n', Lower(rest), CLOSE_OPTION);
    StripCRKeepsOption(a);
    AnyCloseLineCons(StripCR(a), Lines(rest));
  }

  lemma StripCRKeepsOption(a: string)
    ensures IsCloseLine(StripCR(a)) <==> Contains(Lower(a), CLOSE_OPTION)
  {
    if |a| > 0 && a[|a| - 1] == '\r' {
      var b := a[..|a| - 1];
      assert a == b + ['\r'] + [];
      LowerAppend(b + ['\r'], []);
      LowerAppend(b, ['\r']);
      assert Lower(a) == Lower(b) + ['\r'] + [];
      ContainsAround(Lower(b), '\r', [], CLOSE_OPTION);
      assert !Contains([], CLOSE_OPTION);
    }
  }

  // ---------------------------------------------------------------------
  // Header end and body

  /** The index of the first blank line of the request, or its length when it has none. */
  function HeaderEnd(request: string): (r: nat)
    ensures Contains(request, HEADER_TERMINATOR) ==>
              OccursAt(request, HEADER_TERMINATOR, r)
              && forall j :: 0 <= j < r ==> !OccursAt(request, HEADER_TERMINATOR, j)
    ensures !Contains(request, HEADER_TERMINATOR) ==> r == |request|
  {
    match IndexOf(request, HEADER_TERMINATOR)
    case Some(k) => k
    case None => |request|
  }

  /**
   * The body slice of the fixed buffer: from `headerEnd + 4`, as long as
   * declared but never past the buffer's end; it does not exist (the slice
   * panics) when `headerEnd + 4` lies past the end.
   */
  function BodySlice(buffer: seq<byte>, headerEnd: nat, contentLength: nat): (r: Option<seq<byte>>)
    ensures r.None? <==> headerEnd + 4 > |buffer|
    ensures r.Some? ==> |r.value| == Min(contentLength, |buffer| - (headerEnd + 4))
    ensures r.Some? ==> forall i :: 0 <= i < |r.value| ==> r.value[i] == buffer[headerEnd + 4 + i]
  {
    var start := headerEnd + 4;
    if start > |buffer| then None
    else Some(buffer[start..start + Min(contentLength, |buffer| - start)])
  }

  // ---------------------------------------------------------------------
  // User-Agent

  predicate IsUserAgentLine(l: string) {
    StartsWith(l, USER_AGENT_PREFIX)
  }

  /** The first line starting (case-sensitively) with `User-Agent:`, or `User-Agent: ` when there is none. */
  function AgentLine(request: string): (l: string)
    ensures |l| <= |request| + |USER_AGENT_LEAD|
  {
    var ls := Lines(request);
    match FindFirst(ls, IsUserAgentLine)
    case Some(i) => ls[i]
    case None => USER_AGENT_LEAD
  }

  /** The agent line with every leading `User-Agent: ` removed, then trimmed. */
  function UserAgent(request: string): (r: string)
    ensures r == [] || (!IsWhitespace(r[0]) && !IsWhitespace(r[|r| - 1]))
    ensures |r| <= |request| + |USER_AGENT_LEAD|
  {
    var stripped := TrimStartMatches(AgentLine(request), USER_AGENT_LEAD);
    Trim(stripped)
  }

  /** Without a `User-Agent:` line the value is empty. */
  lemma UserAgentAbsent(request: string)
    requires forall i :: 0 <= i < |Lines(request)| ==> !IsUserAgentLine(Lines(request)[i])
    ensures UserAgent(request) == ""
  {
    assert StartsWith(USER_AGENT_LEAD, USER_AGENT_LEAD);
    assert USER_AGENT_LEAD[|USER_AGENT_LEAD|..] == "";
  }

  /** `User-Agent: <u>` is a user-agent line, and stripping the lead leaves `u`. */
  lemma UserAgentLine(u: string)
    requires !StartsWith(u, USER_AGENT_LEAD)
    ensures IsUserAgentLine(USER_AGENT_LEAD + u)
    ensures TrimStartMatches(USER_AGENT_LEAD + u, USER_AGENT_LEAD) == u
  {
    var l := USER_AGENT_LEAD + u;
    assert l[..|USER_AGENT_PREFIX|] == USER_AGENT_PREFIX;
    assert l[..|USER_AGENT_LEAD|] == USER_AGENT_LEAD;
    assert l[|USER_AGENT_LEAD|..] == u;
  }

  lemma LeadLineFeedFree(u: string)
    requires '\n' !in u
    ensures '\n' !in USER_AGENT_LEAD + u
  {
    var l := USER_AGENT_LEAD + u;
    forall i | 0 <= i < |l| ensures l[i] != '\n' {
      if i >= |USER_AGENT_LEAD| { assert l[i] == u[i - |USER_AGENT_LEAD|]; }
    }
  }

  /** The first `User-Agent: <u>` line gives `u` trimmed, whatever follows it. */
  lemma UserAgentHeader(before: seq<string>, u: string, after: seq<string>)
    requires forall i :: 0 <= i < |before| ==> !IsUserAgentLine(before[i])
    requires !StartsWith(u, USER_AGENT_LEAD)
    requires LineFeedFree(before) && '\n' !in u && LineFeedFree(after)
    ensures UserAgent(JoinLines(before + [USER_AGENT_LEAD + u] + after)) == Trim(u)
  {
    var l := USER_AGENT_LEAD + u;
    var ls := before + [l] + after;
    LeadLineFeedFree(u);
    LineFeedFreeAround(before, l, after);
    LinesOfJoin(ls);
    UserAgentLine(u);
    FindFirstAppend(before, l, after, IsUserAgentLine);
    assert ls[|before|] == l;
  }
}
