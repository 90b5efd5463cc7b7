/**
 * The fixed regular expressions of the abbreviation dictionary, written as
 * scanners over strings: the inline-code span, the fenced code block and the
 * URL, together with the two ways the dictionary applies them (`Matcher.find`
 * in a loop and `Matcher.replaceAll`) and `String.replace` on a literal.
 *
 * Each scanner answers one question: does a match start at position 0 of
 * `s`, and if so where does the match the Java regex engine picks end?
 */
module TextPatterns {
  import opened Options

  predicate IsAsciiLetter(c: char) {
    'A' <= c <= 'Z' || 'a' <= c <= 'z'
  }

  predicate IsAsciiDigit(c: char) {
    '0' <= c <= '9'
  }

  predicate IsAsciiAlnum(c: char) {
    IsAsciiLetter(c) || IsAsciiDigit(c)
  }

  /** `key` occurs in `s` starting at position q. */
  predicate StartsAt(s: string, q: nat, key: string) {
    q + |key| <= |s| && s[q..q + |key|] == key
  }

  lemma StartsAtPrefix(s: string, e: nat, q: nat, key: string)
    requires e <= |s| && q + |key| <= e
    ensures StartsAt(s[..e], q, key) <==> StartsAt(s, q, key)
  {
    assert s[..e][q..q + |key|] == s[q..q + |key|];
  }

  // ---------------------------------------------------------------------
  // Inline code: `[^`\n]+`

  /** The first position from k on holding a backtick or a newline, or the end of s. */
  function CodeRunEnd(s: string, k: nat): (n: nat)
    requires k <= |s|
    ensures k <= n <= |s|
    ensures forall j :: k <= j < n ==> s[j] != '`' && s[j] != '\n'
    ensures n < |s| ==> s[n] == '`' || s[n] == '\n'
    decreases |s| - k
  {
    if k == |s| || s[k] == '`' || s[k] == '\n' then k else CodeRunEnd(s, k + 1)
  }

  lemma {:induction false} CodeRunEndOf(s: string, k: nat, n: nat)
    requires k <= n <= |s|
    requires forall j :: k <= j < n ==> s[j] != '`' && s[j] != '\n'
    requires n < |s| ==> s[n] == '`' || s[n] == '\n'
    ensures CodeRunEnd(s, k) == n
    decreases n - k
  {
    if k < n {
      CodeRunEndOf(s, k + 1, n);
    }
  }

  /**
   * The match of the inline-code regex at position 0: the greedy body stops
   * at the first backtick or newline, and the match exists only when that
   * stop is a backtick and the body is not empty.
   */
  function InlineCodeMatch(s: string): (r: Option<nat>)
    ensures r.Some? ==> 0 < r.value <= |s|
  {
    if s == [] || s[0] != '`' then None
    else
      var n := CodeRunEnd(s, 1);
      if 1 < n < |s| && s[n] == '`' then Some(n + 1) else None
  }

  /** A backtick, one or more characters that are neither backtick nor newline, and a backtick. */
  ghost predicate IsInlineSpan(t: string) {
    && |t| >= 3
    && t[0] == '`'
    && t[|t| - 1] == '`'
    && forall k :: 0 < k < |t| - 1 ==> t[k] != '`' && t[k] != '\n'
  }

  /** The scanner finds exactly the inline-code spans; at most one starts at a given position. */
  lemma InlineCodeMatchSpec(s: string, e: nat)
    requires 0 < e <= |s|
    ensures InlineCodeMatch(s) == Some(e) <==> IsInlineSpan(s[..e])
  {
    if IsInlineSpan(s[..e]) {
      var t := s[..e];
      assert s[0] == t[0] && s[e - 1] == t[e - 1];
      assert forall j :: 1 <= j < e - 1 ==> s[j] == t[j];
      CodeRunEndOf(s, 1, e - 1);
    }
  }

  // ---------------------------------------------------------------------
  // Fenced code block: "```[\s\S]*?```"

  const Fence: string := "```"

  /** The first position at or after `from` where a fence starts. */
  function NextFence(s: string, from: nat): (r: Option<nat>)
    ensures r.Some? ==> from <= r.value && StartsAt(s, r.value, Fence)
    ensures r.Some? ==> forall k :: from <= k < r.value ==> !StartsAt(s, k, Fence)
    ensures r.None? ==> forall k :: from <= k ==> !StartsAt(s, k, Fence)
    decreases |s| - from
  {
    if from + 3 > |s| then None
    else if StartsAt(s, from, Fence) then Some(from)
    else NextFence(s, from + 1)
  }

  /**
   * The match of the code-block regex at position 0: an opening fence and the
   * nearest following fence (the lazy body takes as little as it can).
   */
  function CodeBlockMatch(s: string): (r: Option<nat>)
    ensures r.Some? ==> 0 < r.value <= |s|
  {
    if !StartsAt(s, 0, Fence) then None
    else
      match NextFence(s, 3)
      case Some(k) => Some(k + 3)
      case None => None
  }

  /** An opening fence, then anything up to and including the nearest following fence. */
  ghost predicate IsFenceBlock(t: string) {
    && |t| >= 6
    && StartsAt(t, 0, Fence)
    && StartsAt(t, |t| - 3, Fence)
    && forall k :: 3 <= k < |t| - 3 ==> !StartsAt(t, k, Fence)
  }

  /** The scanner finds exactly the fenced blocks ending at the nearest closing fence. */
  lemma CodeBlockMatchSpec(s: string, e: nat)
    requires 0 < e <= |s|
    ensures CodeBlockMatch(s) == Some(e) <==> IsFenceBlock(s[..e])
  {
    if e >= 6 {
      StartsAtPrefix(s, e, 0, Fence);
      StartsAtPrefix(s, e, e - 3, Fence);
      forall k | 3 <= k < e - 3
        ensures StartsAt(s[..e], k, Fence) <==> StartsAt(s, k, Fence)
      {
        StartsAtPrefix(s, e, k, Fence);
      }
    }
    if CodeBlockMatch(s) == Some(e) {
      assert StartsAt(s, 0, Fence);
    }
  }

  // ---------------------------------------------------------------------
  // URL: "(?:https?|ftp)://[^\s　<>\"{}|\\^`]+(?<![.,;:!?、。」』）])"

  /** Length of the scheme and "://" at position 0, if any. */
  function SchemeLength(s: string): (r: Option<nat>)
    ensures r.Some? ==> r.value <= |s|
  {
    if StartsAt(s, 0, "https://") then Some(8)
    else if StartsAt(s, 0, "http://") then Some(7)
    else if StartsAt(s, 0, "ftp://") then Some(6)
    else None
  }

  /** Anything but Java's `\s` (space, tab, newline, vertical tab, form feed, return), U+3000 and <>"{}|\^`. */
  predicate IsUrlBodyChar(c: char) {
    !(|| c == ' ' || c == '\t' || c == '\n' || c == '\U{B}' || c == '\U{C}' || c == '\r'
      || c == '\U{3000}'
      || c == '<' || c == '>' || c == '"' || c == '{' || c == '}' || c == '|' || c == '\\' || c == '^' || c == '`')
  }

  /** The characters a URL may not end on: . , ; : ! ? and 、 。 」 』 ）. */
  predicate IsUrlTrailPunct(c: char) {
    || c == '.' || c == ',' || c == ';' || c == ':' || c == '!' || c == '?'
    || c == '\U{3001}' || c == '\U{3002}' || c == '\U{300D}' || c == '\U{300F}' || c == '\U{FF09}'
  }

  /** Length of the longest prefix of URL body characters. */
  function BodyLength(s: string): (n: nat)
    ensures n <= |s|
    ensures forall k :: 0 <= k < n ==> IsUrlBodyChar(s[k])
    ensures n < |s| ==> !IsUrlBodyChar(s[n])
  {
    if s == [] || !IsUrlBodyChar(s[0]) then 0 else 1 + BodyLength(s[1..])
  }

  /** The longest length in 1..n whose last character is not trailing punctuation. */
  function BackOff(s: string, n: nat): (r: Option<nat>)
    requires n <= |s|
    ensures r.Some? ==> 0 < r.value <= n && !IsUrlTrailPunct(s[r.value - 1])
    ensures r.Some? ==> forall m :: r.value <= m < n ==> IsUrlTrailPunct(s[m])
    ensures r.None? ==> forall m :: 0 <= m < n ==> IsUrlTrailPunct(s[m])
  {
    if n == 0 then None
    else if !IsUrlTrailPunct(s[n - 1]) then Some(n)
    else BackOff(s, n - 1)
  }

  /**
   * The match of the URL regex at position 0: the scheme, then the greedy body
   * given back one character at a time until the lookbehind accepts its end.
   */
  function UrlMatch(s: string): (r: Option<nat>)
    ensures r.Some? ==> 0 < r.value <= |s|
  {
    match SchemeLength(s)
    case None => None
    case Some(l) =>
      match BackOff(s[l..], BodyLength(s[l..]))
      case None => None
      case Some(n) => Some(l + n)
  }

  /** All of s[from..to] are URL body characters. */
  ghost predicate BodyRun(s: string, from: nat, to: nat)
    requires from <= to <= |s|
  {
    forall k :: from <= k < to ==> IsUrlBodyChar(s[k])
  }

  /**
   * s[..e] is the URL the regex takes at position 0: a scheme, a non-empty
   * body, a last character that is not trailing punctuation, and every longer
   * body would end on trailing punctuation.
   */
  ghost predicate IsUrlMatch(s: string, e: nat) {
    && SchemeLength(s).Some?
    && var l := SchemeLength(s).value;
    && l < e <= |s|
    && BodyRun(s, l, e)
    && !IsUrlTrailPunct(s[e - 1])
    && forall m :: e <= m < |s| && BodyRun(s, l, m + 1) ==> IsUrlTrailPunct(s[m])
  }

  /** The URL scanner returns exactly the end described by `IsUrlMatch`. */
  lemma UrlMatchSpec(s: string, e: nat)
    requires 0 < e <= |s|
    ensures UrlMatch(s) == Some(e) <==> IsUrlMatch(s, e)
  {
    if UrlMatch(s) == Some(e) {
      UrlMatchSound(s);
    }
    if IsUrlMatch(s, e) {
      UrlMatchComplete(s, e);
    }
  }

  lemma UrlMatchSound(s: string)
    requires UrlMatch(s).Some?
    ensures IsUrlMatch(s, UrlMatch(s).value)
  {
    var l := SchemeLength(s).value;
    var rest := s[l..];
    var b := BodyLength(rest);
    var n := BackOff(rest, b).value;
    var e := l + n;
    forall k | l <= k < e
      ensures IsUrlBodyChar(s[k])
    {
      assert s[k] == rest[k - l];
    }
    assert s[e - 1] == rest[n - 1];
    forall m | e <= m < |s| && BodyRun(s, l, m + 1)
      ensures IsUrlTrailPunct(s[m])
    {
      assert s[m] == rest[m - l];
    }
  }

  lemma UrlMatchComplete(s: string, e: nat)
    requires IsUrlMatch(s, e)
    ensures UrlMatch(s) == Some(e)
  {
    var l := SchemeLength(s).value;
    var rest := s[l..];
    var b := BodyLength(rest);
    BodyRunShift(s, l, e);
    BodyLengthCovers(rest, e - l);
    MaximalBodyTail(s, l, e, b);
    assert rest[e - l - 1] == s[e - 1];
    BackOffIs(rest, b, e - l);
    UrlMatchFrom(s, l, e - l);
  }

  /** A body run of s, in the coordinates of s[l..]. */
  lemma BodyRunShift(s: string, l: nat, e: nat)
    requires l <= e <= |s| && BodyRun(s, l, e)
    ensures forall k :: 0 <= k < e - l ==> IsUrlBodyChar(s[l..][k])
  {
    forall k | 0 <= k < e - l
      ensures IsUrlBodyChar(s[l..][k])
    {
      assert s[l..][k] == s[l + k];
    }
  }

  lemma UrlMatchFrom(s: string, l: nat, n: nat)
    requires SchemeLength(s) == Some(l)
    requires BackOff(s[l..], BodyLength(s[l..])) == Some(n)
    ensures UrlMatch(s) == Some(l + n)
  {
  }

  /** Past the chosen end, every body character ends on trailing punctuation, in the coordinates of s[l..]. */
  lemma MaximalBodyTail(s: string, l: nat, e: nat, b: nat)
    requires l < e <= |s| && e - l <= b <= |s| - l
    requires forall k :: 0 <= k < b ==> IsUrlBodyChar(s[l..][k])
    requires forall m :: e <= m < |s| && BodyRun(s, l, m + 1) ==> IsUrlTrailPunct(s[m])
    ensures forall m :: e - l <= m < b ==> IsUrlTrailPunct(s[l..][m])
  {
    var rest := s[l..];
    forall m | e - l <= m < b
      ensures IsUrlTrailPunct(rest[m])
    {
      forall k | l <= k < l + m + 1
        ensures IsUrlBodyChar(s[k])
      {
        assert s[k] == rest[k - l];
      }
      assert rest[m] == s[l + m];
    }
  }

  /** A prefix of body characters is no longer than the body. */
  lemma BodyLengthCovers(s: string, n: nat)
    requires n <= |s|
    requires forall k :: 0 <= k < n ==> IsUrlBodyChar(s[k])
    ensures n <= BodyLength(s)
  {
  }

  lemma {:induction false} BackOffIs(s: string, b: nat, n: nat)
    requires 0 < n <= b <= |s|
    requires !IsUrlTrailPunct(s[n - 1])
    requires forall m :: n <= m < b ==> IsUrlTrailPunct(s[m])
    ensures BackOff(s, b) == Some(n)
    decreases b
  {
    if b > n {
      BackOffIs(s, b - 1, n);
    }
  }

  // ---------------------------------------------------------------------
  // Finding and replacing matches

  datatype Scanner = InlineCode | CodeBlock | Url

  /** The end of the match starting at position 0 of `s`, by the scanner's regex. */
  function MatchAt(sc: Scanner, s: string): (r: Option<nat>)
    ensures r.Some? ==> 0 < r.value <= |s|
  {
    match sc
    case InlineCode => InlineCodeMatch(s)
    case CodeBlock => CodeBlockMatch(s)
    case Url => UrlMatch(s)
  }

  /** A match occupies s[start..end]. */
  datatype Span = Span(start: nat, end: nat)

  /** `Matcher.find`: the leftmost match starting at or after `from`. */
  function Find(sc: Scanner, s: string, from: nat): (r: Option<Span>)
    requires from <= |s|
    ensures r.Some? ==> from <= r.value.start < r.value.end <= |s|
    ensures r.Some? ==> MatchAt(sc, s[r.value.start..]) == Some(r.value.end - r.value.start)
    ensures r.Some? ==> forall q :: from <= q < r.value.start ==> MatchAt(sc, s[q..]).None?
    ensures r.None? ==> forall q :: from <= q <= |s| ==> MatchAt(sc, s[q..]).None?
    decreases |s| - from
  {
    match MatchAt(sc, s[from..])
    case Some(n) => Some(Span(from, from + n))
    case None =>
      if from == |s| then None
      else
        var r := Find(sc, s, from + 1);
        FindStep(sc, s, from, r);
        r
  }

  /** No match at `from`: what holds of the search from `from + 1` holds of the search from `from`. */
  lemma FindStep(sc: Scanner, s: string, from: nat, r: Option<Span>)
    requires from < |s| && MatchAt(sc, s[from..]).None?
    requires r.Some? ==> from + 1 <= r.value.start <= |s|
    requires r.Some? ==> forall q :: from + 1 <= q < r.value.start ==> MatchAt(sc, s[q..]).None?
    requires r.None? ==> forall q :: from + 1 <= q <= |s| ==> MatchAt(sc, s[q..]).None?
    ensures r.Some? ==> forall q :: from <= q < r.value.start ==> MatchAt(sc, s[q..]).None?
    ensures r.None? ==> forall q :: from <= q <= |s| ==> MatchAt(sc, s[q..]).None?
  {
  }

  /** Skipping positions where no match starts does not change what `Find` returns. */
  lemma {:induction false} FindSkip(sc: Scanner, s: string, from: nat, mid: nat)
    requires from <= mid <= |s|
    requires forall q :: from <= q < mid ==> MatchAt(sc, s[q..]).None?
    ensures Find(sc, s, from) == Find(sc, s, mid)
    decreases mid - from
  {
    if from < mid {
      assert MatchAt(sc, s[from..]).None?;
      FindSkip(sc, s, from + 1, mid);
    }
  }

  /** `Matcher.replaceAll(marker)` on s[from..]: each successive leftmost match becomes the marker. */
  function ReplaceAllFrom(sc: Scanner, s: string, from: nat, marker: string): string
    requires from <= |s|
    decreases |s| - from
  {
    match Find(sc, s, from)
    case None => s[from..]
    case Some(sp) => s[from..sp.start] + marker + ReplaceAllFrom(sc, s, sp.end, marker)
  }

  function ReplaceAll(sc: Scanner, s: string, marker: string): string {
    ReplaceAllFrom(sc, s, 0, marker)
  }

  /** Where no match starts, `replaceAll` leaves the text as it is. */
  lemma ReplaceAllNoMatch(sc: Scanner, s: string, from: nat, marker: string)
    requires from <= |s|
    requires forall q :: from <= q <= |s| ==> MatchAt(sc, s[q..]).None?
    ensures ReplaceAllFrom(sc, s, from, marker) == s[from..]
  {
    assert MatchAt(sc, s[from..]).None?;
  }

  /**
   * The leftmost match is replaced by the marker, the text before it is kept,
   * and scanning resumes where the match ends.
   */
  lemma ReplaceAllLeftmost(sc: Scanner, s: string, from: nat, p: nat, n: nat, marker: string)
    requires from <= p <= |s|
    requires forall q :: from <= q < p ==> MatchAt(sc, s[q..]).None?
    requires MatchAt(sc, s[p..]) == Some(n)
    ensures p + n <= |s|
    ensures ReplaceAllFrom(sc, s, from, marker) == s[from..p] + marker + ReplaceAllFrom(sc, s, p + n, marker)
  {
    FindSkip(sc, s, from, p);
    assert Find(sc, s, p) == Some(Span(p, p + n));
  }

  // ---------------------------------------------------------------------
  // String.replace on a literal

  /**
   * `String.replace(key, v)`: every occurrence of `key`, scanning left to
   * right without overlaps, becomes `v`; an empty key inserts `v` before
   * every character and at the end.
   */
  function ReplaceLiteral(s: string, key: string, v: string): string
    decreases |s|
  {
    if key == [] then (if s == [] then v else v + [s[0]] + ReplaceLiteral(s[1..], key, v))
    else if StartsAt(s, 0, key) then v + ReplaceLiteral(s[|key|..], key, v)
    else if s == [] then []
    else [s[0]] + ReplaceLiteral(s[1..], key, v)
  }

  lemma StartsAtTail(s: string, q: nat, key: string)
    requires s != []
    ensures StartsAt(s[1..], q, key) <==> StartsAt(s, q + 1, key)
  {
    if q + 1 + |key| <= |s| {
      assert s[1..][q..q + |key|] == s[q + 1..q + 1 + |key|];
    }
  }

  /** A prefix s[..n] in which no occurrence of `key` starts is copied unchanged. */
  lemma {:induction false} ReplaceLiteralPassThrough(s: string, n: nat, key: string, v: string)
    requires key != [] && n <= |s|
    requires forall q :: 0 <= q < n ==> !StartsAt(s, q, key)
    ensures ReplaceLiteral(s, key, v) == s[..n] + ReplaceLiteral(s[n..], key, v)
    decreases n
  {
    if n == 0 {
      assert s[..0] == [] && s[0..] == s;
    } else {
      assert !StartsAt(s, 0, key);
      assert ReplaceLiteral(s, key, v) == [s[0]] + ReplaceLiteral(s[1..], key, v);
      forall q | 0 <= q < n - 1
        ensures !StartsAt(s[1..], q, key)
      {
        StartsAtTail(s, q, key);
      }
      var tail := s[1..];
      ReplaceLiteralPassThrough(tail, n - 1, key, v);
      assert tail[n - 1..] == s[n..];
      assert s[..n] == [s[0]] + tail[..n - 1];
      ConsAssoc(s[0], tail[..n - 1], ReplaceLiteral(s[n..], key, v));
    }
  }

  lemma ConsAssoc(c: char, b: string, d: string)
    ensures ([c] + b) + d == [c] + (b + d)
  {
  }

  /** Text without any occurrence of the key is left as it is. */
  lemma ReplaceLiteralAbsent(s: string, key: string, v: string)
    requires key != []
    requires forall q :: 0 <= q < |s| ==> !StartsAt(s, q, key)
    ensures ReplaceLiteral(s, key, v) == s
  {
    ReplaceLiteralPassThrough(s, |s|, key, v);
    assert s[..|s|] == s;
  }

  /** An occurrence at the start is replaced and the scan goes on after it. */
  lemma ReplaceLiteralHere(t: string, key: string, v: string)
    requires key != []
    ensures ReplaceLiteral(key + t, key, v) == v + ReplaceLiteral(t, key, v)
  {
    assert (key + t)[..|key|] == key;
    assert (key + t)[|key|..] == t;
  }
}
