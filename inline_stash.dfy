/**
 * Protecting inline code in the abbreviation dictionary: each inline code
 * span is swapped for a numbered placeholder before the other rewrites run,
 * and swapped back afterwards with `String.replace`.
 */
module InlineStash {
  import opened Options
  import opened TextPatterns
  import opened TokenRules

  // ---------------------------------------------------------------------
  // Placeholders

  function DigitChar(d: nat): (c: char)
    requires d < 10
    ensures IsAsciiDigit(c) && DigitValue(c) == d
  {
    ('0' as int + d) as char
  }

  /** `String.valueOf` of a non-negative int: its decimal digits, most significant first. */
  function NatToString(n: nat): (r: string)
    ensures |r| >= 1 && AllDigits(r)
    decreases n
  {
    if n < 10 then [DigitChar(n)] else NatToString(n / 10) + [DigitChar(n % 10)]
  }

  /** Reading the digits back gives the number: the rendering is exact. */
  lemma {:induction false} NatToStringValue(n: nat)
    ensures DecimalValue(NatToString(n)) == n
    decreases n
  {
    var r := NatToString(n);
    if n < 10 {
      DecimalValue1(r);
    } else {
      NatToStringValue(n / 10);
      assert r[..|r| - 1] == NatToString(n / 10);
    }
  }

  lemma NatToStringInjective(a: nat, b: nat)
    requires NatToString(a) == NatToString(b)
    ensures a == b
  {
    NatToStringValue(a);
    NatToStringValue(b);
  }

  const PlaceholderHead: string := "__INLINE_CODE_"

  /** The placeholder that stands for the inline code span numbered i. */
  function Placeholder(i: nat): (p: string)
    ensures |p| == |PlaceholderHead| + |NatToString(i)| + 2
    ensures p[0] == '_'
  {
    PlaceholderHead + NatToString(i) + "__"
  }

  /** The characters of a placeholder, position by position. */
  lemma PlaceholderChars(i: nat)
    ensures forall m :: 0 <= m < 14 ==> Placeholder(i)[m] == PlaceholderHead[m]
    ensures forall m :: 14 <= m < 14 + |NatToString(i)| ==> IsAsciiDigit(Placeholder(i)[m])
    ensures Placeholder(i)[14 + |NatToString(i)|] == '_'
    ensures Placeholder(i)[15 + |NatToString(i)|] == '_'
  {
    var d := NatToString(i);
    assert forall m :: 14 <= m < 14 + |d| ==> Placeholder(i)[m] == d[m - 14];
  }

  predicate NoUnderscore(s: string) {
    forall k :: 0 <= k < |s| ==> s[k] != '_'
  }

  /** A key does not occur at q when one of its characters differs from the text there. */
  lemma Mismatch(s: string, q: nat, key: string, m: nat)
    requires m < |key|
    requires q + m < |s| ==> s[q + m] != key[m]
    ensures !StartsAt(s, q, key)
  {
    assert q + |key| <= |s| ==> s[q..q + |key|][m] == s[q + m];
  }

  /**
   * No placeholder starts at position 0 of a different placeholder followed
   * by anything: the digits of a shorter number run into the closing `__`.
   */
  lemma PlaceholderPrefix(i: nat, j: nat, t: string)
    requires i != j
    ensures !StartsAt(Placeholder(j) + t, 0, Placeholder(i))
  {
    var di, dj := NatToString(i), NatToString(j);
    if |di| < |dj| {
      PlaceholderMismatchAt(i, j, t, 14 + |di|);
    } else if |dj| < |di| {
      PlaceholderMismatchAt(i, j, t, 14 + |dj|);
    } else {
      NatToStringValue(i);
      NatToStringValue(j);
      assert di != dj;
      var m :| 0 <= m < |di| && di[m] != dj[m];
      PlaceholderMismatchAt(i, j, t, 14 + m);
    }
  }

  /** Position m of placeholder i: a digit of i, or the `_` right after them. */
  lemma PlaceholderAt(i: nat, m: nat)
    requires 14 <= m <= 14 + |NatToString(i)|
    ensures m < 14 + |NatToString(i)| ==> Placeholder(i)[m] == NatToString(i)[m - 14]
    ensures m == 14 + |NatToString(i)| ==> Placeholder(i)[m] == '_'
  {
  }

  /** Placeholders i and j differ at position m, so i does not start a text that starts with j. */
  lemma PlaceholderMismatchAt(i: nat, j: nat, t: string, m: nat)
    requires 14 <= m <= 14 + |NatToString(i)| && m <= 14 + |NatToString(j)|
    requires m == 14 + |NatToString(i)| ==> m < 14 + |NatToString(j)|
    requires m == 14 + |NatToString(j)| ==> m < 14 + |NatToString(i)|
    requires m < 14 + |NatToString(i)| && m < 14 + |NatToString(j)| ==>
      NatToString(i)[m - 14] != NatToString(j)[m - 14]
    ensures !StartsAt(Placeholder(j) + t, 0, Placeholder(i))
  {
    var s := Placeholder(j) + t;
    PlaceholderAt(i, m);
    PlaceholderAt(j, m);
    assert s[m] == Placeholder(j)[m];
    Mismatch(s, 0, Placeholder(i), m);
  }

  /**
   * What may follow a placeholder without another placeholder being found
   * across the boundary: its 7th and 8th characters are not `_C`, and its
   * first two are not `_I`.
   */
  predicate GoodStart(t: string) {
    && (|t| >= 8 ==> !(t[6] == '_' && t[7] == 'C'))
    && (|t| >= 2 ==> !(t[0] == '_' && t[1] == 'I'))
  }

  /** Inside a placeholder (after its first character) no placeholder starts. */
  lemma NoPlaceholderInside(i: nat, j: nat, t: string, q: nat)
    requires 0 < q < |Placeholder(j)|
    requires GoodStart(t)
    ensures !StartsAt(Placeholder(j) + t, q, Placeholder(i))
  {
    if q < 14 + |NatToString(j)| {
      NoPlaceholderInBody(i, j, t, q);
    } else {
      NoPlaceholderAtClose(i, j, t, q);
    }
  }

  /** No placeholder starts inside the head or the digits of another. */
  lemma NoPlaceholderInBody(i: nat, j: nat, t: string, q: nat)
    requires 0 < q < 14 + |NatToString(j)|
    ensures !StartsAt(Placeholder(j) + t, q, Placeholder(i))
  {
    var s := Placeholder(j) + t;
    var pi := Placeholder(i);
    PlaceholderChars(i);
    PlaceholderChars(j);
    assert pi[0] == '_' && pi[1] == '_';
    if q < 13 {
      assert s[q] == PlaceholderHead[q] && s[q + 1] == PlaceholderHead[q + 1];
      if s[q] != '_' {
        Mismatch(s, q, pi, 0);
      } else {
        Mismatch(s, q, pi, 1);
      }
    } else if q == 13 {
      assert IsAsciiDigit(s[14]);
      Mismatch(s, q, pi, 1);
    } else {
      assert IsAsciiDigit(s[q]);
      Mismatch(s, q, pi, 0);
    }
  }

  /** No placeholder starts at the closing `__` of another, given what follows it. */
  lemma NoPlaceholderAtClose(i: nat, j: nat, t: string, q: nat)
    requires 14 + |NatToString(j)| <= q < |Placeholder(j)|
    requires GoodStart(t)
    ensures !StartsAt(Placeholder(j) + t, q, Placeholder(i))
  {
    var s := Placeholder(j) + t;
    var pi := Placeholder(i);
    PlaceholderChars(i);
    assert pi[1] == '_' && pi[2] == 'I' && pi[8] == '_' && pi[9] == 'C';
    if q == 14 + |NatToString(j)| {
      if |t| >= 8 && t[6] != '_' {
        Mismatch(s, q, pi, 8);
      } else {
        Mismatch(s, q, pi, 9);
      }
    } else {
      if |t| >= 1 && t[0] != '_' {
        Mismatch(s, q, pi, 1);
      } else {
        Mismatch(s, q, pi, 2);
      }
    }
  }

  /** A text free of `_` holds no placeholder before its end. */
  lemma NoPlaceholderInPlain(x: string, t: string, key: string)
    requires NoUnderscore(x) && key != [] && key[0] == '_'
    ensures forall q :: 0 <= q < |x| ==> !StartsAt(x + t, q, key)
  {
    forall q | 0 <= q < |x|
      ensures !StartsAt(x + t, q, key)
    {
      Mismatch(x + t, q, key, 0);
    }
  }

  /** `replace` of a placeholder passes over a `_`-free prefix untouched. */
  lemma ReplacePastPlain(x: string, t: string, i: nat, v: string)
    requires NoUnderscore(x)
    ensures ReplaceLiteral(x + t, Placeholder(i), v) == x + ReplaceLiteral(t, Placeholder(i), v)
  {
    NoPlaceholderInPlain(x, t, Placeholder(i));
    ReplaceLiteralPassThrough(x + t, |x|, Placeholder(i), v);
    assert (x + t)[..|x|] == x && (x + t)[|x|..] == t;
  }

  /** `replace` of one placeholder passes over a different placeholder untouched. */
  lemma ReplacePastPlaceholder(j: nat, t: string, i: nat, v: string)
    requires i != j && GoodStart(t)
    ensures ReplaceLiteral(Placeholder(j) + t, Placeholder(i), v) == Placeholder(j) + ReplaceLiteral(t, Placeholder(i), v)
  {
    var s := Placeholder(j) + t;
    forall q | 0 <= q < |Placeholder(j)|
      ensures !StartsAt(s, q, Placeholder(i))
    {
      if q == 0 {
        PlaceholderPrefix(i, j, t);
      } else {
        NoPlaceholderInside(i, j, t, q);
      }
    }
    ReplaceLiteralPassThrough(s, |Placeholder(j)|, Placeholder(i), v);
    assert s[..|Placeholder(j)|] == Placeholder(j) && s[|Placeholder(j)|..] == t;
  }

  // ---------------------------------------------------------------------
  // Stashing and restoring

  /** The rewritten text and the inline code spans, the k-th standing behind placeholder k. */
  datatype Stashed = Stashed(text: string, codes: seq<string>)

  /**
   * The find / appendReplacement / appendTail loop from position `from`,
   * numbering placeholders from i.
   */
  function StashFrom(s: string, from: nat, i: nat): Stashed
    requires from <= |s|
    decreases |s| - from
  {
    match Find(InlineCode, s, from)
    case None => Stashed(s[from..], [])
    case Some(sp) =>
      var rest := StashFrom(s, sp.end, i + 1);
      Stashed(s[from..sp.start] + Placeholder(i) + rest.text, [s[sp.start..sp.end]] + rest.codes)
  }

  function Stash(s: string): Stashed {
    StashFrom(s, 0, 0)
  }

  /** Replaces placeholder i + k by codes[k], for k in order. */
  function RestoreFrom(t: string, codes: seq<string>, i: nat): string
    decreases |codes|
  {
    if codes == [] then t
    else RestoreFrom(ReplaceLiteral(t, Placeholder(i), codes[0]), codes[1..], i + 1)
  }

  /** Every stashed span is an inline code span of the input, in order of appearance. */
  lemma {:induction false} StashedCodesAreSpans(s: string, from: nat, i: nat)
    requires from <= |s|
    ensures forall k :: 0 <= k < |StashFrom(s, from, i).codes| ==> IsInlineSpan(StashFrom(s, from, i).codes[k])
    decreases |s| - from
  {
    match Find(InlineCode, s, from)
    case None =>
    case Some(sp) =>
      StashedCodesAreSpans(s, sp.end, i + 1);
      var n := sp.end - sp.start;
      InlineCodeMatchSpec(s[sp.start..], n);
      assert s[sp.start..][..n] == s[sp.start..sp.end];
  }

  /** Text with no inline code span is left as it is and nothing is stashed. */
  lemma StashNoInlineCode(s: string)
    requires forall q :: 0 <= q <= |s| ==> InlineCodeMatch(s[q..]).None?
    ensures Stash(s) == Stashed(s, [])
  {
    assert forall q :: 0 <= q <= |s| ==> MatchAt(InlineCode, s[q..]).None?;
  }

  /** A `_`-free text, then a placeholder, never opens with a false placeholder boundary. */
  lemma GoodStartBeforePlaceholder(x: string, i: nat, r: string)
    requires NoUnderscore(x)
    ensures GoodStart(x + Placeholder(i) + r)
  {
    var p := Placeholder(i);
    var t := x + p + r;
    PlaceholderChars(i);
    assert p[0] == '_' && p[1] == '_' && p[2] == 'I' && p[3] == 'N';
    assert p[4] == 'L' && p[5] == 'I' && p[6] == 'N' && p[7] == 'E';
    if |x| >= 8 {
      assert t[0] == x[0] && t[6] == x[6];
    } else if |x| == 7 {
      assert t[0] == x[0] && t[6] == x[6];
    } else if |x| >= 1 {
      assert t[0] == x[0] && t[6] == p[6 - |x|] && t[7] == p[7 - |x|];
    } else {
      assert t[0] == p[0] && t[1] == p[1] && t[6] == p[6];
    }
  }

  /** Replacing placeholder i leaves plain text, placeholder j and a text free of placeholder i alone. */
  lemma ReplacePastSegment(x: string, j: nat, rest: string, i: nat, v: string)
    requires NoUnderscore(x) && i != j && GoodStart(rest)
    requires ReplaceLiteral(rest, Placeholder(i), v) == rest
    ensures ReplaceLiteral(x + Placeholder(j) + rest, Placeholder(i), v) == x + Placeholder(j) + rest
  {
    ReplacePastPlain(x, Placeholder(j) + rest, i, v);
    ReplacePastPlaceholder(j, rest, i, v);
    assert x + Placeholder(j) + rest == x + (Placeholder(j) + rest);
  }

  /** Every string of the sequence is free of `_`. */
  predicate AllPlain(xs: seq<string>) {
    forall k :: 0 <= k < |xs| ==> NoUnderscore(xs[k])
  }

  /** Gaps separated by placeholders numbered from i: the shape of a stashed text. */
  function Interleave(gaps: seq<string>, i: nat): string
    requires |gaps| >= 1
    decreases |gaps|
  {
    if |gaps| == 1 then gaps[0] else gaps[0] + Placeholder(i) + Interleave(gaps[1..], i + 1)
  }

  /** Gaps separated by the codes: the shape of the text before stashing. */
  function Weave(gaps: seq<string>, codes: seq<string>): string
    requires |gaps| == |codes| + 1
    decreases |codes|
  {
    if codes == [] then gaps[0] else gaps[0] + codes[0] + Weave(gaps[1..], codes[1..])
  }

  /** The texts between the inline code spans from position `from` on. */
  function StashGaps(s: string, from: nat): (gaps: seq<string>)
    requires from <= |s|
    ensures |gaps| >= 1
    decreases |s| - from
  {
    match Find(InlineCode, s, from)
    case None => [s[from..]]
    case Some(sp) => [s[from..sp.start]] + StashGaps(s, sp.end)
  }

  /** The stashed text is the gaps with placeholders between them. */
  lemma {:induction false} StashShape(s: string, from: nat, i: nat)
    requires from <= |s|
    ensures |StashGaps(s, from)| == |StashFrom(s, from, i).codes| + 1
    ensures StashFrom(s, from, i).text == Interleave(StashGaps(s, from), i)
    decreases |s| - from
  {
    match Find(InlineCode, s, from)
    case None =>
    case Some(sp) =>
      StashShape(s, sp.end, i + 1);
      assert ([s[from..sp.start]] + StashGaps(s, sp.end))[1..] == StashGaps(s, sp.end);
  }

  /** The input is the gaps with the stashed codes between them. */
  lemma {:induction false} StashWeave(s: string, from: nat, i: nat)
    requires from <= |s|
    requires |StashGaps(s, from)| == |StashFrom(s, from, i).codes| + 1
    ensures s[from..] == Weave(StashGaps(s, from), StashFrom(s, from, i).codes)
    decreases |s| - from
  {
    match Find(InlineCode, s, from)
    case None =>
    case Some(sp) =>
      var gaps := StashGaps(s, sp.end);
      var codes := StashFrom(s, sp.end, i + 1).codes;
      assert StashGaps(s, from) == [s[from..sp.start]] + gaps;
      assert StashFrom(s, from, i).codes == [s[sp.start..sp.end]] + codes;
      StashWeave(s, sp.end, i + 1);
      WeaveCons(s[from..sp.start], s[sp.start..sp.end], gaps, codes);
      assert s[from..] == s[from..sp.start] + s[sp.start..sp.end] + s[sp.end..];
  }

  /** Weaving one more gap and code in front. */
  lemma WeaveCons(g: string, c: string, gaps: seq<string>, codes: seq<string>)
    requires |gaps| == |codes| + 1
    ensures Weave([g] + gaps, [c] + codes) == g + c + Weave(gaps, codes)
  {
    assert ([g] + gaps)[1..] == gaps;
    assert ([c] + codes)[1..] == codes;
  }

  /** The gaps and codes woven into a `_`-free text are all free of `_`. */
  lemma {:induction false} WeavePlain(gaps: seq<string>, codes: seq<string>)
    requires |gaps| == |codes| + 1 && NoUnderscore(Weave(gaps, codes))
    ensures AllPlain(gaps) && AllPlain(codes)
    decreases |codes|
  {
    var w := Weave(gaps, codes);
    assert forall k :: 0 <= k < |gaps[0]| ==> gaps[0][k] == w[k];
    if codes != [] {
      var rest := Weave(gaps[1..], codes[1..]);
      assert forall k :: 0 <= k < |codes[0]| ==> codes[0][k] == w[|gaps[0]| + k];
      assert forall k :: 0 <= k < |rest| ==> rest[k] == w[|gaps[0]| + |codes[0]| + k];
      WeavePlain(gaps[1..], codes[1..]);
      assert gaps == [gaps[0]] + gaps[1..] && codes == [codes[0]] + codes[1..];
    }
  }

  /** A stashed text built from `_`-free gaps never opens with a false placeholder boundary. */
  lemma InterleaveGoodStart(gaps: seq<string>, i: nat)
    requires |gaps| >= 1 && AllPlain(gaps)
    ensures GoodStart(Interleave(gaps, i))
  {
    if |gaps| > 1 {
      GoodStartBeforePlaceholder(gaps[0], i, Interleave(gaps[1..], i + 1));
    }
  }

  /** A stashed text whose placeholders are numbered from j holds no placeholder numbered below j. */
  lemma {:induction false} InterleaveHoldsNoEarlier(gaps: seq<string>, j: nat, i: nat, v: string)
    requires |gaps| >= 1 && AllPlain(gaps) && i < j
    ensures ReplaceLiteral(Interleave(gaps, j), Placeholder(i), v) == Interleave(gaps, j)
    decreases |gaps|
  {
    if |gaps| == 1 {
      ReplacePastPlain(gaps[0], [], i, v);
      assert gaps[0] + [] == gaps[0];
    } else {
      var rest := Interleave(gaps[1..], j + 1);
      InterleaveHoldsNoEarlier(gaps[1..], j + 1, i, v);
      InterleaveGoodStart(gaps[1..], j + 1);
      ReplacePastSegment(gaps[0], j, rest, i, v);
    }
  }

  /** Restoring passes over a `_`-free prefix untouched. */
  lemma {:induction false} RestorePastPlain(x: string, t: string, codes: seq<string>, i: nat)
    requires NoUnderscore(x)
    ensures RestoreFrom(x + t, codes, i) == x + RestoreFrom(t, codes, i)
    decreases |codes|
  {
    if codes != [] {
      ReplacePastPlain(x, t, i, codes[0]);
      RestorePastPlain(x, ReplaceLiteral(t, Placeholder(i), codes[0]), codes[1..], i + 1);
    }
  }

  /** Replacing placeholder i when it occurs once, after a `_`-free prefix. */
  lemma RestoreOne(x: string, c: string, rest: string, i: nat)
    requires NoUnderscore(x) && NoUnderscore(c)
    requires ReplaceLiteral(rest, Placeholder(i), c) == rest
    ensures ReplaceLiteral(x + Placeholder(i) + rest, Placeholder(i), c) == (x + c) + rest
    ensures NoUnderscore(x + c)
  {
    var p := Placeholder(i);
    ReplacePastPlain(x, p + rest, i, c);
    ReplaceLiteralHere(rest, p, c);
    Assoc3(x, p, rest);
    Assoc3(x, c, rest);
    NoUnderscoreConcat(x, c);
  }

  lemma Assoc3<T>(x: seq<T>, y: seq<T>, z: seq<T>)
    ensures x + y + z == x + (y + z)
  {
  }

  lemma NoUnderscoreConcat(x: string, y: string)
    requires NoUnderscore(x) && NoUnderscore(y)
    ensures NoUnderscore(x + y)
  {
    forall k | 0 <= k < |x + y| ensures (x + y)[k] != '_' {
      if k < |x| { assert (x + y)[k] == x[k]; } else { assert (x + y)[k] == y[k - |x|]; }
    }
  }

  /** Restoring `_`-free codes into the placeholders numbered from i gives the woven text. */
  lemma {:induction false} RestoreInterleave(gaps: seq<string>, codes: seq<string>, i: nat)
    requires |gaps| == |codes| + 1 && AllPlain(gaps) && AllPlain(codes)
    ensures RestoreFrom(Interleave(gaps, i), codes, i) == Weave(gaps, codes)
    decreases |codes|
  {
    if codes != [] {
      var x, c := gaps[0], codes[0];
      var rest := Interleave(gaps[1..], i + 1);
      InterleaveHoldsNoEarlier(gaps[1..], i + 1, i, c);
      RestoreOne(x, c, rest, i);
      RestorePastPlain(x + c, rest, codes[1..], i + 1);
      RestoreInterleave(gaps[1..], codes[1..], i + 1);
      assert (x + c) + Weave(gaps[1..], codes[1..]) == Weave(gaps, codes);
    }
  }

  /**
   * Restoring undoes stashing for any text without `_`: every placeholder
   * is put back to the inline code it stands for.
   */
  lemma StashRoundTrip(s: string)
    requires NoUnderscore(s)
    ensures RestoreFrom(Stash(s).text, Stash(s).codes, 0) == s
  {
    StashShape(s, 0, 0);
    StashWeave(s, 0, 0);
    assert s[0..] == s;
    WeavePlain(StashGaps(s, 0), Stash(s).codes);
    RestoreInterleave(StashGaps(s, 0), Stash(s).codes, 0);
  }

  /**
   * Text that already holds a placeholder's spelling is not restored
   * verbatim: the literal `__INLINE_CODE_0__` before an inline code span
   * comes back as a second copy of the span.
   */
  lemma StashCollision(s: string)
    requires s == "__INLINE_CODE_0__ `x`"
    ensures RestoreFrom(Stash(s).text, Stash(s).codes, 0) == "`x` `x`"
  {
    CollisionStash(s);
    CollisionRestore();
    assert Placeholder(0) + " " + Placeholder(0) == Placeholder(0) + (" " + Placeholder(0));
  }

  lemma CollisionRestore()
    ensures RestoreFrom(Placeholder(0) + (" " + Placeholder(0)), ["`x`"], 0) == "`x` `x`"
  {
    var p, v := Placeholder(0), "`x`";
    assert [v][1..] == [];
    ReplaceTwoCopies(p, v);
  }

  /** Two copies of a key starting with `_`, separated by a space, both get replaced. */
  lemma ReplaceTwoCopies(p: string, v: string)
    requires |p| >= 1 && p[0] == '_'
    ensures ReplaceLiteral(p + (" " + p), p, v) == v + (" " + v)
  {
    ReplaceLiteralHere(" " + p, p, v);
    Mismatch(" " + p, 0, p, 0);
    assert (" " + p)[1..] == p;
    ReplaceLiteralHere([], p, v);
    assert p + [] == p;
  }

  lemma PlaceholderZero()
    ensures Placeholder(0) == "__INLINE_CODE_0__"
  {
    assert NatToString(0) == "0";
  }

  /** In the collision text the only inline code span is the last three characters. */
  lemma CollisionStash(s: string)
    requires s == "__INLINE_CODE_0__ `x`"
    ensures Stash(s) == Stashed(Placeholder(0) + " " + Placeholder(0), ["`x`"])
  {
    CollisionFind(s);
    CollisionTail(s);
    PlaceholderZero();
    assert s[0..18] == Placeholder(0) + " ";
    assert s[18..21] == "`x`";
  }

  lemma CollisionFind(s: string)
    requires s == "__INLINE_CODE_0__ `x`"
    ensures Find(InlineCode, s, 0) == Some(Span(18, 21))
  {
    assert forall q :: 0 <= q < 18 ==> s[q] != '`';
    forall q | 0 <= q < 18
      ensures MatchAt(InlineCode, s[q..]).None?
    {
      assert s[q..][0] == s[q];
    }
    FindSkip(InlineCode, s, 0, 18);
    assert s[18..] == "`x`";
    CodeRunEndOf(s[18..], 1, 2);
    assert MatchAt(InlineCode, s[18..]) == Some(3);
  }

  lemma CollisionTail(s: string)
    requires s == "__INLINE_CODE_0__ `x`"
    ensures StashFrom(s, 21, 1) == Stashed([], [])
  {
    assert s[21..] == [];
    assert MatchAt(InlineCode, s[21..]).None?;
  }
}
