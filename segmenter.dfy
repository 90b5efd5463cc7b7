/**
 * The Latin/other segmentation used by the replacement engine
 * (`RegexUtil.splitJapaneseEnglish`), stated as functions over strings.
 *
 * The source classifies one character at a time with the character class
 * `[A-Za-z0-9:/#$%&.,-?_]`.  In that class `,-?` is a range from U+002C to
 * U+003F, so `;`, `<`, `=` and `>` are Latin-class as well.
 */
module Segmenter {

  /** Membership in `[A-Za-z0-9:/#$%&.,-?_]`, member by member as written. */
  predicate IsLatinClass(c: char) {
    || ('A' <= c <= 'Z')
    || ('a' <= c <= 'z')
    || ('0' <= c <= '9')
    || c == ':' || c == '/' || c == '#' || c == '$' || c == '%' || c == '&' || c == '.'
    || (',' <= c <= '?')
    || c == '_'
  }

  /** Concatenation of a list of strings, in order. */
  function Concat(ss: seq<string>): string {
    if ss == [] then [] else Concat(ss[..|ss| - 1]) + ss[|ss| - 1]
  }

  lemma {:induction false} ConcatCons(x: string, ss: seq<string>)
    ensures Concat([x] + ss) == x + Concat(ss)
  {
    if ss == [] {
      assert [x] + ss == [x];
      assert ([x] + ss)[..0] == [];
    } else {
      var front := ss[..|ss| - 1];
      assert ([x] + ss)[..|ss|] == [x] + front;
      ConcatCons(x, front);
    }
  }

  lemma ConcatSnoc(ss: seq<string>, x: string)
    ensures Concat(ss + [x]) == Concat(ss) + x
  {
    assert (ss + [x])[..|ss|] == ss;
  }

  /** Every character of `s` is Latin-class exactly when `latin` holds. */
  ghost predicate IsRun(s: string, latin: bool) {
    forall i :: 0 <= i < |s| ==> IsLatinClass(s[i]) == latin
  }

  /** Token k is a run of class `firstLatin` for even k and of the other class for odd k. */
  ghost predicate Alternating(tokens: seq<string>, firstLatin: bool) {
    forall k :: 0 <= k < |tokens| ==> IsRun(tokens[k], if k % 2 == 0 then firstLatin else !firstLatin)
  }

  /** Only the first token may be empty. */
  ghost predicate NonEmptyAfterFirst(tokens: seq<string>) {
    forall k :: 0 < k < |tokens| ==> tokens[k] != []
  }

  /**
   * What `splitJapaneseEnglish` returns, stated as properties: the tokens put
   * back together give the text, they alternate non-Latin (even positions) and
   * Latin (odd positions), only the first may be empty, and the empty text has
   * no tokens.
   */
  ghost predicate IsSegmentation(text: string, tokens: seq<string>) {
    && Concat(tokens) == text
    && Alternating(tokens, false)
    && NonEmptyAfterFirst(tokens)
    && (tokens == [] <==> text == [])
  }

  /** Length of the longest prefix of `s` whose characters are of class `latin`. */
  function RunLength(s: string, latin: bool): (n: nat)
    ensures n <= |s|
    ensures IsRun(s[..n], latin)
    ensures n < |s| ==> IsLatinClass(s[n]) != latin
  {
    if s == [] || IsLatinClass(s[0]) != latin then 0 else 1 + RunLength(s[1..], latin)
  }

  /** The maximal runs of `s`, the first of class `latin` (empty when `s` starts with the other class). */
  function Runs(s: string, latin: bool): seq<string>
    decreases |s|, if s != [] && IsLatinClass(s[0]) == latin then 0 else 1
  {
    var n := RunLength(s, latin);
    if n == |s| then [s] else [s[..n]] + Runs(s[n..], !latin)
  }

  /**
   * Reference definition of the split: maximal runs that always start with a
   * non-Latin run.  When the text starts with a Latin-class character that
   * first run is the empty string.
   */
  function Split(text: string): seq<string> {
    if text == [] then [] else Runs(text, false)
  }

  lemma AlternatingCons(t0: string, rest: seq<string>, latin: bool)
    ensures Alternating([t0] + rest, latin) <==> IsRun(t0, latin) && Alternating(rest, !latin)
  {
    var r := [t0] + rest;
    if IsRun(t0, latin) && Alternating(rest, !latin) {
      forall k | 0 <= k < |r|
        ensures IsRun(r[k], if k % 2 == 0 then latin else !latin)
      {
        if k > 0 {
          assert r[k] == rest[k - 1];
        }
      }
    }
    if Alternating(r, latin) {
      assert r[0] == t0;
      forall k | 0 <= k < |rest|
        ensures IsRun(rest[k], if k % 2 == 0 then !latin else latin)
      {
        assert rest[k] == r[k + 1];
      }
    }
  }

  lemma NonEmptyAfterFirstCons(t0: string, rest: seq<string>)
    ensures NonEmptyAfterFirst([t0] + rest) <==> (rest != [] ==> rest[0] != []) && NonEmptyAfterFirst(rest)
  {
    var r := [t0] + rest;
    if (rest != [] ==> rest[0] != []) && NonEmptyAfterFirst(rest) {
      forall k | 0 < k < |r| ensures r[k] != [] {
        assert r[k] == rest[k - 1];
      }
    }
    if NonEmptyAfterFirst(r) {
      forall k | 0 < k < |rest| ensures rest[k] != [] {
        assert rest[k] == r[k + 1];
      }
      if rest != [] {
        assert rest[0] == r[1];
      }
    }
  }

  lemma {:induction false} RunsIsSegmentation(s: string, latin: bool)
    ensures Runs(s, latin) != []
    ensures Concat(Runs(s, latin)) == s
    ensures Alternating(Runs(s, latin), latin)
    ensures NonEmptyAfterFirst(Runs(s, latin))
    decreases |s|, if s != [] && IsLatinClass(s[0]) == latin then 0 else 1
  {
    var n := RunLength(s, latin);
    if n == |s| {
      assert s[..n] == s;
      assert Concat([s]) == Concat([]) + s;
    } else {
      RunsIsSegmentation(s[n..], !latin);
      RunsStep(s, latin, n, Runs(s[n..], !latin));
    }
  }

  /** One step of `RunsIsSegmentation`: a maximal first run followed by the runs of the rest. */
  lemma RunsStep(s: string, latin: bool, n: nat, rest: seq<string>)
    requires n == RunLength(s, latin) < |s|
    requires rest == Runs(s[n..], !latin)
    requires rest != [] && Concat(rest) == s[n..]
    requires Alternating(rest, !latin) && NonEmptyAfterFirst(rest)
    ensures Runs(s, latin) == [s[..n]] + rest
    ensures Concat([s[..n]] + rest) == s
    ensures Alternating([s[..n]] + rest, latin)
    ensures NonEmptyAfterFirst([s[..n]] + rest)
  {
    assert s[n..][0] == s[n];
    RunsHeadNonEmpty(s[n..], !latin);
    SegmentCons(s, n, latin, rest);
  }

  /** A run followed by alternating tokens that start with a non-empty one of the other class. */
  lemma SegmentCons(s: string, n: nat, latin: bool, rest: seq<string>)
    requires n <= |s| && IsRun(s[..n], latin)
    requires rest != [] && rest[0] != [] && Concat(rest) == s[n..]
    requires Alternating(rest, !latin) && NonEmptyAfterFirst(rest)
    ensures Concat([s[..n]] + rest) == s
    ensures Alternating([s[..n]] + rest, latin)
    ensures NonEmptyAfterFirst([s[..n]] + rest)
  {
    ConcatCons(s[..n], rest);
    assert s[..n] + s[n..] == s;
    AlternatingCons(s[..n], rest, latin);
    NonEmptyAfterFirstCons(s[..n], rest);
  }

  lemma RunsHeadNonEmpty(t: string, latin: bool)
    requires t != [] && IsLatinClass(t[0]) == latin
    ensures Runs(t, latin) != [] && Runs(t, latin)[0] != []
  {
    RunLengthPositive(t, latin);
  }

  lemma RunLengthPositive(s: string, latin: bool)
    requires s != [] && IsLatinClass(s[0]) == latin
    ensures RunLength(s, latin) > 0
  {
  }

  /** The reference split satisfies the characterisation. */
  lemma SplitIsSegmentation(text: string)
    ensures IsSegmentation(text, Split(text))
  {
    if text != [] {
      RunsIsSegmentation(text, false);
    }
  }

  /** Any list of alternating maximal runs starting with class `latin` is `Runs(s, latin)`. */
  lemma {:induction false} RunsUnique(s: string, latin: bool, tokens: seq<string>)
    requires tokens != []
    requires Concat(tokens) == s
    requires Alternating(tokens, latin)
    requires NonEmptyAfterFirst(tokens)
    ensures tokens == Runs(s, latin)
    decreases |tokens|
  {
    var t0 := tokens[0];
    var rest := tokens[1..];
    assert tokens == [t0] + rest;
    ConcatCons(t0, rest);
    AlternatingCons(t0, rest, latin);
    NonEmptyAfterFirstCons(t0, rest);
    if rest == [] {
      assert s == t0;
      RunLengthOfRun(s, latin, |t0|);
    } else {
      assert Concat(rest) == s[|t0|..];
      ConcatCons(rest[0], rest[1..]);
      assert rest == [rest[0]] + rest[1..];
      assert s[|t0|] == rest[0][0];
      RunLengthOfRun(s, latin, |t0|);
      RunsUnique(s[|t0|..], !latin, rest);
    }
  }

  /** A prefix of class `latin` that cannot be extended is the one `RunLength` measures. */
  lemma RunLengthOfRun(s: string, latin: bool, n: nat)
    requires n <= |s|
    requires IsRun(s[..n], latin)
    requires n < |s| ==> IsLatinClass(s[n]) != latin
    ensures RunLength(s, latin) == n
  {
  }

  /** The characterisation determines the tokens: there is exactly one segmentation of a text. */
  lemma SegmentationUnique(text: string, a: seq<string>, b: seq<string>)
    requires IsSegmentation(text, a)
    requires IsSegmentation(text, b)
    ensures a == b
  {
    if text != [] {
      RunsUnique(text, false, a);
      RunsUnique(text, false, b);
    }
  }

  /** Putting the tokens of `Split` back together gives the text, character for character. */
  lemma SplitLossless(text: string)
    ensures Concat(Split(text)) == text
  {
    SplitIsSegmentation(text);
  }

  /**
   * The only empty token is the first one, and it is there exactly when the
   * text starts with a Latin-class character; the empty text has no tokens.
   */
  lemma {:induction false} SplitLeadingEmpty(text: string)
    ensures text == [] ==> Split(text) == []
    ensures text != [] ==> (Split(text)[0] == [] <==> IsLatinClass(text[0]))
    ensures forall k :: 0 < k < |Split(text)| ==> Split(text)[k] != []
  {
    SplitIsSegmentation(text);
    if text != [] {
      var n := RunLength(text, false);
      assert Split(text)[0] == text[..n];
    }
  }

  /** The character class contains `;`, `<`, `=` and `>` through the range `,-?`, but not `@`. */
  lemma LatinClassRangeQuirk()
    ensures IsLatinClass(';') && IsLatinClass('<') && IsLatinClass('=') && IsLatinClass('>')
    ensures !IsLatinClass('@') && !IsLatinClass(' ') && !IsLatinClass('あ')
  {
  }
}
