/**
 * The string operations of Rust's standard library that the handler uses
 * (`lines`, `split_whitespace`, `split`, `find`, `contains`, `starts_with`,
 * `trim`, `trim_start_matches`, ASCII `to_lowercase`, `parse::<usize>` and
 * `{}` formatting of an unsigned integer), each with the property that
 * characterises it.
 */
module Text {

  datatype Option<T> = None | Some(value: T)

  /** The largest `usize`, taken at its 64-bit width. */
  const USIZE_MAX: nat := 0xFFFF_FFFF_FFFF_FFFF

  function Min(a: nat, b: nat): nat {
    if a < b then a else b
  }

  // ---------------------------------------------------------------------
  // Characters

  /** Unicode White_Space, as `char::is_whitespace` tests it. */
  predicate IsWhitespace(c: char) {
    c == ' ' || ('\t' <= c <= '\r') || c == '\U{85}' || c == '\U{A0}' || c == '\U{1680}'
    || ('\U{2000}' <= c <= '\U{200A}') || c == '\U{2028}' || c == '\U{2029}'
    || c == '\U{202F}' || c == '\U{205F}' || c == '\U{3000}'
  }

  predicate HasNoWhitespace(s: string) {
    forall i :: 0 <= i < |s| ==> !IsWhitespace(s[i])
  }

  predicate HasNoLineBreak(s: string) {
    forall i :: 0 <= i < |s| ==> s[i] != '\r' && s[i] != '\n'
  }

  function LowerChar(c: char): char {
    if 'A' <= c <= 'Z' then (c as int + 32) as char else c
  }

  /** `to_lowercase` on ASCII text: every upper-case letter replaced, nothing else touched. */
  function Lower(s: string): (r: string)
    ensures |r| == |s|
    ensures forall i :: 0 <= i < |s| && 'A' <= s[i] <= 'Z' ==> r[i] as int == s[i] as int + 32
    ensures forall i :: 0 <= i < |s| && !('A' <= s[i] <= 'Z') ==> r[i] == s[i]
    ensures forall i :: 0 <= i < |s| ==> !('A' <= r[i] <= 'Z')
  {
    seq(|s|, i requires 0 <= i < |s| => LowerChar(s[i]))
  }

  lemma LowerAppend(s: string, t: string)
    ensures Lower(s + t) == Lower(s) + Lower(t)
  {
    assert forall i :: 0 <= i < |s + t| ==> Lower(s + t)[i] == (Lower(s) + Lower(t))[i];
  }

  // ---------------------------------------------------------------------
  // Searching

  predicate StartsWith<T(==)>(s: seq<T>, p: seq<T>) {
    |p| <= |s| && s[..|p|] == p
  }

  predicate EndsWith<T(==)>(s: seq<T>, p: seq<T>) {
    |p| <= |s| && s[|s| - |p|..] == p
  }

  /** `pat` occurs in `s` starting at index `i`. */
  predicate OccursAt<T(==)>(s: seq<T>, pat: seq<T>, i: int) {
    0 <= i && i + |pat| <= |s| && s[i..i + |pat|] == pat
  }

  /** `str::find`: the index of the first occurrence of `pat`, if any. */
  function IndexOf<T(==)>(s: seq<T>, pat: seq<T>): (r: Option<nat>)
    ensures r.Some? ==> OccursAt(s, pat, r.value)
    ensures r.Some? ==> forall j :: 0 <= j < r.value ==> !OccursAt(s, pat, j)
    ensures r.None? ==> forall j :: !OccursAt(s, pat, j)
    decreases |s|
  {
    if |s| < |pat| then None
    else if s[..|pat|] == pat then Some(0)
    else
      match IndexOf(s[1..], pat)
      case None =>
        assert forall j :: OccursAt(s, pat, j) && j > 0 ==> OccursAt(s[1..], pat, j - 1);
        None
      case Some(k) =>
        assert forall j :: 0 < j <= k ==> (OccursAt(s, pat, j) ==> OccursAt(s[1..], pat, j - 1));
        Some(k + 1)
  }

  /** The first occurrence is the one with no occurrence before it. */
  lemma IndexOfExact<T>(s: seq<T>, pat: seq<T>, k: nat)
    requires OccursAt(s, pat, k)
    requires forall j :: 0 <= j < k ==> !OccursAt(s, pat, j)
    ensures IndexOf(s, pat) == Some(k)
  {
  }

  /** A position where `s` differs from `pat` rules out an occurrence there. */
  lemma Mismatch<T>(s: seq<T>, pat: seq<T>, j: int, i: int)
    requires 0 <= j && 0 <= i < |pat| && j + i < |s| && s[j + i] != pat[i]
    ensures !OccursAt(s, pat, j)
  {
    if j + |pat| <= |s| {
      assert s[j..j + |pat|][i] == s[j + i];
    }
  }

  /** Two different sequences of one length differ at some index. */
  lemma Difference<T>(a: seq<T>, b: seq<T>) returns (i: nat)
    requires |a| == |b| && a != b
    ensures i < |a| && a[i] != b[i]
  {
    i :| i < |a| && a[i] != b[i];
  }

  /** Occurrences in `x + t` past `x` are the occurrences in `t`. */
  lemma OccursShift<T>(x: seq<T>, t: seq<T>, pat: seq<T>, j: int)
    requires 0 <= j
    ensures OccursAt(x + t, pat, |x| + j) <==> OccursAt(t, pat, j)
  {
    if j + |pat| <= |t| {
      assert (x + t)[|x| + j..|x| + j + |pat|] == t[j..j + |pat|];
    }
  }

  /** `str::contains`. */
  predicate Contains<T(==)>(s: seq<T>, pat: seq<T>) {
    IndexOf(s, pat).Some?
  }

  lemma SliceIndex<T>(s: seq<T>, j: int, n: int, i: int)
    ensures 0 <= j && j + n <= |s| && 0 <= i < n ==> s[j..j + n][i] == s[j + i]
  {
  }

  lemma OccursInPrefix<T>(x: seq<T>, y: seq<T>, pat: seq<T>, j: int)
    requires OccursAt(x, pat, j)
    ensures OccursAt(x + y, pat, j)
  {
    assert (x + y)[j..j + |pat|] == x[j..j + |pat|];
  }

  lemma OccursInSuffix<T>(x: seq<T>, y: seq<T>, pat: seq<T>, j: int)
    requires OccursAt(y, pat, j)
    ensures OccursAt(x + y, pat, |x| + j)
  {
    assert (x + y)[|x| + j..|x| + j + |pat|] == y[j..j + |pat|];
  }

  /** An occurrence in `x + [c] + y` lies in `x` or in `y` when `c` is not part of `pat`. */
  lemma OccursAround<T>(x: seq<T>, c: T, y: seq<T>, pat: seq<T>, j: int)
    requires c !in pat
    requires OccursAt(x + [c] + y, pat, j)
    ensures OccursAt(x, pat, j) || OccursAt(y, pat, j - |x| - 1)
  {
    var s := x + [c] + y;
    if j + |pat| <= |x| {
      assert s[j..j + |pat|] == x[j..j + |pat|];
    } else if j > |x| {
      assert s[j..j + |pat|] == y[j - |x| - 1..j - |x| - 1 + |pat|];
    } else {
      SliceIndex(s, j, |pat|, |x| - j);
      assert false;
    }
  }

  /** An occurrence of `pat` cannot straddle a character that `pat` does not hold. */
  lemma ContainsAround<T>(x: seq<T>, c: T, y: seq<T>, pat: seq<T>)
    requires c !in pat
    ensures Contains(x + [c] + y, pat) <==> Contains(x, pat) || Contains(y, pat)
  {
    var s := x + [c] + y;
    if Contains(s, pat) {
      OccursAround(x, c, y, pat, IndexOf(s, pat).value);
    }
    if Contains(x, pat) {
      OccursInPrefix(x, [c] + y, pat, IndexOf(x, pat).value);
      assert s == x + ([c] + y);
    }
    if Contains(y, pat) {
      OccursInSuffix(x + [c], y, pat, IndexOf(y, pat).value);
    }
  }

  /** `Iterator::find` over a sequence: the index of the first element satisfying `p`. */
  function FindFirst<T>(s: seq<T>, p: T -> bool): (r: Option<nat>)
    ensures r.Some? ==> r.value < |s| && p(s[r.value])
    ensures r.Some? ==> forall j :: 0 <= j < r.value ==> !p(s[j])
    ensures r.None? ==> forall j :: 0 <= j < |s| ==> !p(s[j])
    decreases |s|
  {
    if s == [] then None
    else if p(s[0]) then Some(0)
    else
      match FindFirst(s[1..], p)
      case None => None
      case Some(k) => Some(k + 1)
  }

  /** The first element satisfying `p` is found however the sequence continues. */
  lemma FindFirstAppend<T>(before: seq<T>, x: T, after: seq<T>, p: T -> bool)
    requires forall i :: 0 <= i < |before| ==> !p(before[i])
    requires p(x)
    ensures FindFirst(before + [x] + after, p) == Some(|before|)
  {
    var s := before + [x] + after;
    assert s[|before|] == x;
    assert forall i :: 0 <= i < |before| ==> s[i] == before[i];
  }

  /** Elements that never satisfy `p` can be appended without changing the first match. */
  lemma FindFirstExtend<T>(a: seq<T>, b: seq<T>, p: T -> bool)
    requires forall i :: 0 <= i < |b| ==> !p(b[i])
    ensures FindFirst(a + b, p) == FindFirst(a, p)
  {
    var s := a + b;
    assert forall i :: 0 <= i < |a| ==> s[i] == a[i];
    assert forall i :: |a| <= i < |s| ==> s[i] == b[i - |a|];
  }

  // ---------------------------------------------------------------------
  // Lines

  /** Drops the carriage return of a CRLF line ending. */
  function StripCR(l: string): string {
    if |l| > 0 && l[|l| - 1] == '\r' then l[..|l| - 1] else l
  }

  /**
   * `str::lines`: split after every `\n`, drop the `\n` and one `\r` before it;
   * a final line without `\n` is kept as it is, and no empty line follows a
   * final `\n`.
   */
  function Lines(s: string): (r: seq<string>)
    ensures forall i :: 0 <= i < |r| ==> '\n' !in r[i] && |r[i]| <= |s|
    decreases |s|
  {
    if s == [] then []
    else
      match IndexOf(s, "\n")
      case None =>
        assert forall j :: 0 <= j < |s| ==> (s[j] == '\n' ==> OccursAt(s, "\n", j));
        [s]
      case Some(k) =>
        assert forall j :: 0 <= j < k ==> (s[j] == '\n' ==> OccursAt(s, "\n", j));
        [StripCR(s[..k])] + Lines(s[k + 1..])
  }

  predicate LineFeedFree(ls: seq<string>) {
    forall i :: 0 <= i < |ls| ==> '\n' !in ls[i]
  }

  lemma LineFeedFreeAround(before: seq<string>, l: string, after: seq<string>)
    requires LineFeedFree(before) && '\n' !in l && LineFeedFree(after)
    ensures LineFeedFree(before + [l] + after)
  {
    var ls := before + [l] + after;
    forall i | 0 <= i < |ls| ensures '\n' !in ls[i] {
      if i < |before| { assert ls[i] == before[i]; }
      else if i > |before| { assert ls[i] == after[i - |before| - 1]; }
    }
  }

  /** Lines written with CRLF endings, as a request head or a response head is laid out. */
  function JoinLines(ls: seq<string>): string {
    if ls == [] then "" else ls[0] + "\r\n" + JoinLines(ls[1..])
  }

  lemma JoinLinesCons(a: string, rest: seq<string>)
    ensures JoinLines([a] + rest) == a + "\r\n" + JoinLines(rest)
  {
    assert ([a] + rest)[0] == a && ([a] + rest)[1..] == rest;
  }

  lemma JoinLines1(a: string)
    ensures JoinLines([a]) == a + "\r\n"
  {
    assert [a][1..] == [];
    assert a + "\r\n" + "" == a + "\r\n";
  }

  lemma JoinLines3(a: string, b: string, c: string)
    ensures JoinLines([a, b, c]) == a + "\r\n" + b + "\r\n" + c + "\r\n"
  {
    JoinLinesCons(a, [b, c]);
    JoinLinesCons(b, [c]);
    JoinLines1(c);
    assert [a] + [b, c] == [a, b, c] && [b] + [c] == [b, c];
  }

  lemma JoinLines4(a: string, b: string, c: string, d: string)
    ensures JoinLines([a, b, c, d]) == a + "\r\n" + b + "\r\n" + c + "\r\n" + d + "\r\n"
  {
    JoinLinesCons(a, [b, c, d]);
    assert [a] + [b, c, d] == [a, b, c, d];
    JoinLines3(b, c, d);
  }

  lemma JoinLinesAppend(a: seq<string>, b: seq<string>)
    ensures JoinLines(a + b) == JoinLines(a) + JoinLines(b)
  {
    if a != [] {
      assert (a + b)[1..] == a[1..] + b;
      JoinLinesAppend(a[1..], b);
    } else {
      assert a + b == b;
    }
  }

  /** A line without a line feed, ended by CRLF, comes out of `lines` as it is. */
  lemma LinesCons(a: string, rest: string)
    requires '\n' !in a
    ensures Lines(a + "\r\n" + rest) == [a] + Lines(rest)
  {
    var s := a + "\r\n" + rest;
    assert OccursAt(s, "\n", |a| + 1);
    forall j | 0 <= j < |a| + 1 ensures !OccursAt(s, "\n", j) {
      if j < |a| { assert s[j] == a[j]; } else { assert s[j] == '\r'; }
    }
    assert IndexOf(s, "\n") == Some(|a| + 1);
    assert s[..|a| + 1] == a + "\r";
    assert StripCR(a + "\r") == a;
    assert s[|a| + 2..] == rest;
  }

  /** Splitting at the first line feed. */
  lemma LinesSplit(a: string, rest: string)
    requires '\n' !in a
    ensures Lines(a + "\n" + rest) == [StripCR(a)] + Lines(rest)
  {
    var s := a + "\n" + rest;
    assert OccursAt(s, "\n", |a|);
    forall j | 0 <= j < |a| ensures !OccursAt(s, "\n", j) {
      assert s[j] == a[j];
    }
    assert s[..|a|] == a;
    assert s[|a| + 1..] == rest;
  }

  /** `lines` undoes `JoinLines` when no line holds a line feed. */
  lemma {:induction false} LinesOfJoin(ls: seq<string>)
    requires LineFeedFree(ls)
    ensures Lines(JoinLines(ls)) == ls
  {
    if ls != [] {
      LinesCons(ls[0], JoinLines(ls[1..]));
      LinesOfJoin(ls[1..]);
    }
  }

  /** Lines that are not empty and hold neither `\r` nor `\n`. */
  predicate NonBlankLines(ls: seq<string>) {
    forall i :: 0 <= i < |ls| ==> ls[i] != [] && HasNoLineBreak(ls[i])
  }

  /**
   * After nonblank lines, the empty line is where the first blank line
   * (`\r\n\r\n`) of the text begins: no earlier position holds one.
   */
  lemma {:induction false} FirstBlankLine(ls: seq<string>)
    requires ls != [] && NonBlankLines(ls)
    ensures |JoinLines(ls)| >= 2
    ensures OccursAt(JoinLines(ls) + "\r\n", "\r\n\r\n", |JoinLines(ls)| - 2)
    ensures forall j :: 0 <= j < |JoinLines(ls)| - 2 ==> !OccursAt(JoinLines(ls) + "\r\n", "\r\n\r\n", j)
  {
    var a, rest := ls[0], ls[1..];
    assert ls == [a] + rest;
    JoinLinesCons(a, rest);
    var t := JoinLines(rest) + "\r\n";
    assert JoinLines(ls) + "\r\n" == a + "\r\n" + t;
    if rest == [] {
      assert t == "\r\n";
      LastBlankLine(a);
    } else {
      FirstBlankLine(rest);
      assert rest == [rest[0]] + rest[1..];
      JoinLinesCons(rest[0], rest[1..]);
      assert t[0] == rest[0][0];
      BlankLineAfter(a, t);
    }
  }

  /** A line without line breaks followed by an empty line: the blank line is at its end. */
  lemma LastBlankLine(a: string)
    requires HasNoLineBreak(a)
    ensures var s := a + "\r\n" + "\r\n";
            OccursAt(s, "\r\n\r\n", |a|)
    ensures var s := a + "\r\n" + "\r\n";
            forall j :: 0 <= j < |a| ==> !OccursAt(s, "\r\n\r\n", j)
  {
    var s := a + "\r\n" + "\r\n";
    assert s[|a|..] == "\r\n\r\n";
    forall j | 0 <= j < |a| ensures !OccursAt(s, "\r\n\r\n", j) {
      assert s[j] == a[j];
      Mismatch(s, "\r\n\r\n", j, 0);
    }
  }

  /** A line without line breaks put before a text whose first blank line is at its end. */
  lemma BlankLineAfter(a: string, t: string)
    requires HasNoLineBreak(a) && |t| >= 4 && t[0] != '\r'
    requires OccursAt(t, "\r\n\r\n", |t| - 4)
    requires forall j :: 0 <= j < |t| - 4 ==> !OccursAt(t, "\r\n\r\n", j)
    ensures var s := a + "\r\n" + t;
            OccursAt(s, "\r\n\r\n", |s| - 4)
    ensures var s := a + "\r\n" + t;
            forall j :: 0 <= j < |s| - 4 ==> !OccursAt(s, "\r\n\r\n", j)
  {
    var x := a + "\r\n";
    var s := x + t;
    forall j | 0 <= j < |s| - 4 ensures !OccursAt(s, "\r\n\r\n", j) {
      if j < |a| {
        assert s[j] == a[j];
        Mismatch(s, "\r\n\r\n", j, 0);
      } else if j == |a| {
        assert s[|a| + 2] == t[0];
        Mismatch(s, "\r\n\r\n", j, 2);
      } else if j == |a| + 1 {
        assert s[|a| + 1] == '\n';
        Mismatch(s, "\r\n\r\n", j, 0);
      } else {
        OccursShift(x, t, "\r\n\r\n", j - |x|);
      }
    }
    OccursShift(x, t, "\r\n\r\n", |t| - 4);
  }

  // ---------------------------------------------------------------------
  // Tokens

  /** The length of the leading run of non-whitespace characters. */
  function WordLength(s: string): (k: nat)
    ensures k <= |s|
    ensures forall i :: 0 <= i < k ==> !IsWhitespace(s[i])
    ensures k < |s| ==> IsWhitespace(s[k])
  {
    if s == [] || IsWhitespace(s[0]) then 0 else 1 + WordLength(s[1..])
  }

  /** `str::split_whitespace`. */
  function Tokens(s: string): (r: seq<string>)
    ensures forall i :: 0 <= i < |r| ==> r[i] != [] && HasNoWhitespace(r[i]) && |r[i]| <= |s|
    decreases |s|
  {
    if s == [] then []
    else if IsWhitespace(s[0]) then Tokens(s[1..])
    else
      var k := WordLength(s);
      [s[..k]] + Tokens(s[k..])
  }

  /** Tokens written with single spaces between them. */
  function JoinWords(ts: seq<string>): string {
    if ts == [] then "" else if |ts| == 1 then ts[0] else ts[0] + " " + JoinWords(ts[1..])
  }

  /** Words without whitespace, joined by spaces, hold no line feed. */
  lemma {:induction false} JoinWordsLineFeedFree(ts: seq<string>)
    requires forall i :: 0 <= i < |ts| ==> HasNoWhitespace(ts[i])
    ensures '\n' !in JoinWords(ts)
  {
    if ts != [] {
      var x := ts[0];
      assert '\n' !in x by {
        forall i | 0 <= i < |x| ensures x[i] != '\n' {
          assert !IsWhitespace(x[i]);
        }
      }
      if |ts| > 1 {
        JoinWordsLineFeedFree(ts[1..]);
        assert JoinWords(ts) == x + " " + JoinWords(ts[1..]);
      }
    }
  }

  /** Leading whitespace is skipped by `split_whitespace`. */
  lemma {:induction false} TokensSkipWhitespace(w: string, s: string)
    requires forall i :: 0 <= i < |w| ==> IsWhitespace(w[i])
    ensures Tokens(w + s) == Tokens(s)
  {
    if w != [] {
      assert (w + s)[1..] == w[1..] + s;
      TokensSkipWhitespace(w[1..], s);
    } else {
      assert w + s == s;
    }
  }

  lemma TokensOfWord(t: string, s: string)
    requires t != [] && HasNoWhitespace(t)
    requires s == [] || IsWhitespace(s[0])
    ensures Tokens(t + s) == [t] + Tokens(s)
  {
    var u := t + s;
    WordLengthOf(t, s);
    assert u[..|t|] == t && u[|t|..] == s;
  }

  lemma {:induction false} WordLengthOf(t: string, s: string)
    requires HasNoWhitespace(t)
    requires s == [] || IsWhitespace(s[0])
    ensures WordLength(t + s) == |t|
  {
    if t != [] {
      assert (t + s)[1..] == t[1..] + s;
      WordLengthOf(t[1..], s);
    } else {
      assert t + s == s;
    }
  }

  /** `split_whitespace` recovers the words of a space-separated line. */
  lemma {:induction false} TokensOfJoinWords(ts: seq<string>)
    requires forall i :: 0 <= i < |ts| ==> ts[i] != [] && HasNoWhitespace(ts[i])
    ensures Tokens(JoinWords(ts)) == ts
  {
    if |ts| == 1 {
      TokensOfWord(ts[0], "");
      assert ts[0] + "" == ts[0];
    } else if |ts| > 1 {
      var rest := JoinWords(ts[1..]);
      assert JoinWords(ts) == ts[0] + (" " + rest);
      TokensOfWord(ts[0], " " + rest);
      TokensSkipWhitespace(" ", rest);
      assert forall i :: 0 <= i < |ts[1..]| ==> ts[1..][i] == ts[i + 1];
      TokensOfJoinWords(ts[1..]);
      assert Tokens(JoinWords(ts)) == [ts[0]] + ts[1..];
      assert [ts[0]] + ts[1..] == ts;
    }
  }

  // ---------------------------------------------------------------------
  // Splitting at a separator

  /** `str::split` at a character: the pieces between separators, at least one. */
  function Split(s: string, sep: char): (r: seq<string>)
    ensures |r| >= 1
    ensures forall i :: 0 <= i < |r| ==> sep !in r[i]
    decreases |s|
  {
    match IndexOf(s, [sep])
    case None =>
      assert forall j :: 0 <= j < |s| ==> (s[j] == sep ==> OccursAt(s, [sep], j));
      [s]
    case Some(k) =>
      assert forall j :: 0 <= j < k ==> (s[j] == sep ==> OccursAt(s, [sep], j));
      [s[..k]] + Split(s[k + 1..], sep)
  }

  function JoinWith(parts: seq<string>, sep: char): string
    requires |parts| >= 1
  {
    if |parts| == 1 then parts[0] else parts[0] + [sep] + JoinWith(parts[1..], sep)
  }

  /** Putting the separators back between the pieces gives the original text. */
  lemma {:induction false} SplitJoin(s: string, sep: char)
    ensures JoinWith(Split(s, sep), sep) == s
    decreases |s|
  {
    match IndexOf(s, [sep])
    case None =>
    case Some(k) =>
      var rest := s[k + 1..];
      var parts := Split(s, sep);
      assert parts == [s[..k]] + Split(rest, sep);
      assert parts[1..] == Split(rest, sep);
      SplitJoin(rest, sep);
      assert JoinWith(parts, sep) == s[..k] + [sep] + JoinWith(Split(rest, sep), sep);
      assert s == s[..k] + [sep] + rest;
  }

  /** `split(sep).nth(1)`: the text between the first and the second separator. */
  function SecondField(s: string, sep: char): (r: Option<string>)
    ensures r.None? <==> sep !in s
    ensures r.Some? ==> sep !in r.value
  {
    SplitCount(s, sep);
    var parts := Split(s, sep);
    if |parts| > 1 then Some(parts[1]) else None
  }

  /** There is more than one piece exactly when the separator occurs. */
  lemma SplitCount(s: string, sep: char)
    ensures |Split(s, sep)| > 1 <==> sep in s
  {
    match IndexOf(s, [sep])
    case None =>
      forall j | 0 <= j < |s| ensures s[j] != sep {
        assert !OccursAt(s, [sep], j);
        assert s[j..j + 1] == [s[j]];
      }
    case Some(k) =>
      assert s[k..k + 1] == [sep];
      assert s[k] == sep;
  }

  /** A separator-free piece followed by a separator is split off first. */
  lemma SplitAt(a: string, sep: char, t: string)
    requires sep !in a
    ensures Split(a + [sep] + t, sep) == [a] + Split(t, sep)
  {
    var s := a + [sep] + t;
    forall j | 0 <= j < |a| ensures !OccursAt(s, [sep], j) {
      assert s[j] == a[j];
      Mismatch(s, [sep], j, 0);
    }
    assert s[|a|..|a| + 1] == [sep];
    IndexOfExact(s, [sep], |a|);
    assert s[..|a|] == a;
    assert s[|a| + 1..] == t;
  }

  /**
   * The field after the first separator: with a separator-free `a` and `v`,
   * and `v` ended by the input's end or by another separator.
   */
  lemma SecondFieldOf(a: string, sep: char, v: string, rest: string)
    requires sep !in a && sep !in v
    requires rest == [] || rest[0] == sep
    ensures SecondField(a + [sep] + v + rest, sep) == Some(v)
  {
    assert a + [sep] + v + rest == a + [sep] + (v + rest);
    SplitAt(a, sep, v + rest);
    if rest == [] {
      assert v + rest == v;
      SplitCount(v, sep);
      assert |Split(v, sep)| == 1;
      SplitJoin(v, sep);
    } else {
      assert v + rest == v + [sep] + rest[1..];
      SplitAt(v, sep, rest[1..]);
    }
  }

  // ---------------------------------------------------------------------
  // Trimming

  /** `str::trim_start`. */
  function TrimStart(s: string): (r: string)
    ensures |r| <= |s| && r == s[|s| - |r|..]
    ensures forall i :: 0 <= i < |s| - |r| ==> IsWhitespace(s[i])
    ensures r != [] ==> !IsWhitespace(r[0])
    decreases |s|
  {
    if s != [] && IsWhitespace(s[0]) then TrimStart(s[1..]) else s
  }

  /** `str::trim_end`. */
  function TrimEnd(s: string): (r: string)
    ensures |r| <= |s| && r == s[..|r|]
    ensures forall i :: |r| <= i < |s| ==> IsWhitespace(s[i])
    ensures r != [] ==> !IsWhitespace(r[|r| - 1])
    decreases |s|
  {
    if s != [] && IsWhitespace(s[|s| - 1]) then TrimEnd(s[..|s| - 1]) else s
  }

  /** Trimming the end of a suffix of `s` leaves a middle slice of `s`. */
  lemma MiddleSlice(s: string, t: string, r: string)
    requires |t| <= |s| && t == s[|s| - |t|..]
    requires |r| <= |t| && r == t[..|r|]
    requires forall k :: |r| <= k < |t| ==> IsWhitespace(t[k])
    ensures var i := |s| - |t|;
            i + |r| <= |s| && r == s[i..i + |r|]
            && forall j :: i + |r| <= j < |s| ==> IsWhitespace(s[j])
  {
    var i := |s| - |t|;
    forall j | i + |r| <= j < |s| ensures IsWhitespace(s[j]) {
      assert s[j] == t[j - i];
    }
  }

  /** `str::trim`: the text between the leading and the trailing whitespace. */
  function Trim(s: string): (r: string)
    ensures var i := |s| - |TrimStart(s)|; i + |r| <= |s| && r == s[i..i + |r|]
    ensures forall j :: 0 <= j < |s| - |TrimStart(s)| ==> IsWhitespace(s[j])
    ensures forall j :: |s| - |TrimStart(s)| + |r| <= j < |s| ==> IsWhitespace(s[j])
    ensures r != [] ==> !IsWhitespace(r[0]) && !IsWhitespace(r[|r| - 1])
  {
    var t := TrimStart(s);
    var r := TrimEnd(t);
    MiddleSlice(s, t, r);
    r
  }

  /** `s` is `r` preceded by zero or more copies of `p`. */
  predicate StripsTo(s: string, p: string, r: string)
    requires |p| > 0
    decreases |s|
  {
    s == r || (StartsWith(s, p) && StripsTo(s[|p|..], p, r))
  }

  /** `str::trim_start_matches` with a non-empty string pattern: strip every leading copy of `p`. */
  function TrimStartMatches(s: string, p: string): (r: string)
    requires |p| > 0
    ensures |r| <= |s|
    ensures StripsTo(s, p, r)
    ensures !StartsWith(r, p)
    decreases |s|
  {
    if StartsWith(s, p) then TrimStartMatches(s[|p|..], p) else s
  }

  // ---------------------------------------------------------------------
  // Decimal numbers

  predicate IsDigit(c: char) {
    '0' <= c <= '9'
  }

  predicate AllDigits(s: string) {
    forall i :: 0 <= i < |s| ==> IsDigit(s[i])
  }

  function DigitChar(d: nat): (c: char)
    requires d < 10
    ensures IsDigit(c) && c as int - '0' as int == d
  {
    ('0' as int + d) as char
  }

  /** `{}` formatting of an unsigned integer: decimal digits, no leading zero. */
  function Decimal(k: nat): (r: string)
    ensures r != [] && AllDigits(r)
    ensures r[0] == '0' ==> k == 0 && r == "0"
    decreases k
  {
    if k < 10 then [DigitChar(k)] else Decimal(k / 10) + [DigitChar(k % 10)]
  }

  function DigitsValue(d: string): nat
    requires AllDigits(d)
  {
    if d == [] then 0 else DigitsValue(d[..|d| - 1]) * 10 + (d[|d| - 1] as int - '0' as int)
  }

  /**
   * `str::parse::<usize>`: an optional `+`, then one or more ASCII digits whose
   * value fits in `usize`; anything else (empty text, a sign alone, a `-`, any
   * other character, overflow) is an error.
   */
  function ParseUsize(s: string): (r: Option<nat>)
    ensures r.Some? ==> r.value <= USIZE_MAX
  {
    if s == [] then None
    else
      var digits := if s[0] == '+' then s[1..] else s;
      if digits == [] || !AllDigits(digits) then None
      else if DigitsValue(digits) <= USIZE_MAX then Some(DigitsValue(digits))
      else None
  }

  lemma {:induction false} DigitsValueOfDecimal(k: nat)
    ensures DigitsValue(Decimal(k)) == k
    decreases k
  {
    var d := Decimal(k);
    if k >= 10 {
      assert d[..|d| - 1] == Decimal(k / 10);
      DigitsValueOfDecimal(k / 10);
    }
  }

  /** Parsing what `{}` printed gives the number back. */
  lemma ParseDecimal(k: nat)
    requires k <= USIZE_MAX
    ensures ParseUsize(Decimal(k)) == Some(k)
  {
    DigitsValueOfDecimal(k);
  }
}
