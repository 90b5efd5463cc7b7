/**
 * Whole-pipeline examples for the abbreviation dictionary: text without
 * backticks or URL schemes goes straight to the token rules, and the
 * dictionary's documented sentences come out as expected.
 */
module AbbreviationExamples {
  import opened Options
  import opened Segmenter
  import opened Replacement
  import opened TextPatterns
  import opened TokenRules
  import opened InlineStash
  import opened Abbreviation

  /** A text without backticks holds neither inline code nor a fenced block. */
  lemma NoBacktickNoCode(s: string, marker: string)
    requires NoBacktick(s)
    ensures Stash(s) == Stashed(s, [])
    ensures ReplaceAll(CodeBlock, s, marker) == s
  {
    forall q | 0 <= q <= |s|
      ensures InlineCodeMatch(s[q..]).None? && MatchAt(CodeBlock, s[q..]).None?
    {
      if q < |s| {
        assert s[q..][0] == s[q];
      }
    }
    StashNoInlineCode(s);
    ReplaceAllNoMatch(CodeBlock, s, 0, marker);
  }

  /** A text without `h` or `f` holds no URL, since every scheme starts with one of them. */
  lemma NoSchemeNoUrl(s: string, marker: string)
    requires NoSchemeLetter(s)
    ensures ReplaceAll(Url, s, marker) == s
  {
    forall q | 0 <= q <= |s|
      ensures MatchAt(Url, s[q..]).None?
    {
      if q < |s| {
        assert s[q..][0] == s[q];
      }
    }
    ReplaceAllNoMatch(Url, s, 0, marker);
  }

  /** For such text, `apply` is `replaceText` with the three dictionary rules. */
  lemma ApplyPlain(isIPv6: string -> bool, text: string)
    requires IsPlain(text)
    ensures ApplySpec(isIPv6, text) == ReplaceSpec(DictionaryRules(isIPv6), text)
  {
    NoBacktickNoCode(text, CodeBlockMarker);
    NoSchemeNoUrl(text, UrlMarker);
  }

  /** Text without a backtick, an `h` or an `f`. */
  ghost predicate IsPlain(text: string) {
    NoBacktick(text) && NoSchemeLetter(text)
  }

  ghost predicate NoBacktick(s: string) {
    forall k :: 0 <= k < |s| ==> s[k] != '`'
  }

  /** No `h` or `f`, the letters every URL scheme starts with. */
  ghost predicate NoSchemeLetter(s: string) {
    forall k :: 0 <= k < |s| ==> s[k] != 'h' && s[k] != 'f'
  }

  /** A known segmentation and known per-token outputs give the result of `replaceText`. */
  lemma ReplaceSpecByTokens(opts: seq<RegexOption>, text: string, tokens: seq<string>, outs: seq<string>)
    requires IsSegmentation(text, tokens)
    requires |outs| == |tokens|
    requires forall k :: 0 <= k < |tokens| ==> TokenOutput(opts, tokens[k]) == outs[k]
    ensures ReplaceSpec(opts, text) == Concat(outs)
  {
    SplitIsSegmentation(text);
    SegmentationUnique(text, Split(text), tokens);
    assert Outputs(opts, tokens) == outs;
  }

  /** The empty token (before a leading Latin-class run) is kept. */
  lemma EmptyTokenKept(isIPv6: string -> bool)
    requires IPv6Alphabet(isIPv6)
    ensures TokenOutput(DictionaryRules(isIPv6), "") == ""
  {
    assert IndexOf("", '.') == None;
    OtherTokenOutput(isIPv6, "");
  }

  lemma EmptyPrefix(u: string)
    ensures [] + u == u
  {
  }

  /** Concatenation of three strings as a token list. */
  lemma Concat3(a: string, b: string, c: string)
    ensures Concat([a, b, c]) == a + b + c
  {
    ConcatCons(a, [b, c]);
    ConcatCons(b, [c]);
    ConcatCons(c, []);
    assert [a] + [b, c] == [a, b, c] && [b] + [c] == [b, c] && [c] + [] == [c];
  }

  lemma Concat5(a: string, b: string, c: string, d: string, e: string)
    ensures Concat([a, b, c, d, e]) == a + b + c + d + e
  {
    Concat3(c, d, e);
    ConcatCons(b, [c, d, e]);
    ConcatCons(a, [b, c, d, e]);
    assert [b] + [c, d, e] == [b, c, d, e] && [a] + [b, c, d, e] == [a, b, c, d, e];
  }

  lemma Concat7(a: string, b: string, c: string, d: string, e: string, f: string, g: string)
    ensures Concat([a, b, c, d, e, f, g]) == a + b + c + d + e + f + g
  {
    Concat5(c, d, e, f, g);
    ConcatCons(b, [c, d, e, f, g]);
    ConcatCons(a, [b, c, d, e, f, g]);
    assert [b] + [c, d, e, f, g] == [b, c, d, e, f, g] && [a] + [b, c, d, e, f, g] == [a, b, c, d, e, f, g];
  }

  /** `replaceText` on a text of three tokens whose outputs are known. */
  lemma ReplaceSpec3(opts: seq<RegexOption>, text: string, a: string, b: string, c: string, x: string, y: string, z: string)
    requires IsSegmentation(text, [a, b, c])
    requires TokenOutput(opts, a) == x && TokenOutput(opts, b) == y && TokenOutput(opts, c) == z
    ensures ReplaceSpec(opts, text) == x + y + z
  {
    ReplaceSpecByTokens(opts, text, [a, b, c], [x, y, z]);
    Concat3(x, y, z);
  }

  /** `replaceText` on a text of five tokens: only the fourth is replaced, by `m`. */
  lemma ReplaceFourthOfFive(opts: seq<RegexOption>, text: string, a: string, b: string, c: string, d: string, e: string, m: string)
    requires IsSegmentation(text, [a, b, c, d, e])
    requires TokenOutput(opts, a) == a && TokenOutput(opts, b) == b && TokenOutput(opts, c) == c
    requires TokenOutput(opts, d) == m && TokenOutput(opts, e) == e
    ensures ReplaceSpec(opts, text) == a + b + c + m + e
  {
    ReplaceSpecByTokens(opts, text, [a, b, c, d, e], [a, b, c, m, e]);
    Concat5(a, b, c, m, e);
  }

  /** `replaceText` on a text of seven tokens: only the sixth is replaced, by `m`. */
  lemma ReplaceSixthOfSeven(opts: seq<RegexOption>, text: string,
                            a: string, b: string, c: string, d: string, e: string, f: string, g: string, m: string)
    requires IsSegmentation(text, [a, b, c, d, e, f, g])
    requires TokenOutput(opts, a) == a && TokenOutput(opts, b) == b && TokenOutput(opts, c) == c
    requires TokenOutput(opts, d) == d && TokenOutput(opts, e) == e && TokenOutput(opts, f) == m
    requires TokenOutput(opts, g) == g
    ensures ReplaceSpec(opts, text) == a + b + c + d + e + m + g
  {
    ReplaceSpecByTokens(opts, text, [a, b, c, d, e, f, g], [a, b, c, d, e, m, g]);
    Concat7(a, b, c, d, e, m, g);
  }

  /** "example.com" is a domain name and not an address. */
  lemma ExampleDomainToken(isIPv6: string -> bool, t: string)
    requires IPv6Alphabet(isIPv6)
    requires t == "example.com"
    ensures TokenOutput(DictionaryRules(isIPv6), t) == DomainMarker
  {
    ExampleIsDomain(t);
    ExampleNotIPv4(t);
    assert t[7] != ':';
    DomainTokenOutput(isIPv6, t);
  }

  lemma ExampleIsDomain(t: string)
    requires t == "example.com"
    ensures IsDomain(t)
  {
    IndexOfIs(t, '.', 7);
    assert t[..7] == "example" && t[8..] == "com";
    assert IsLabel(t[..7]) && IsTld(t[8..]);
  }

  lemma ExampleNotIPv4(t: string)
    requires t == "example.com"
    ensures !IsIPv4(t)
  {
    IndexOfIs(t, '.', 7);
    assert t[..7] == "example";
    assert !IsOctet(t[..7]);
  }

  lemma DomainExampleTokens(text: string)
    requires text == "example.com にアクセス"
    ensures IsSegmentation(text, ["", "example.com", " にアクセス"])
  {
    Concat3("", "example.com", " にアクセス");
  }

  /** `example.com にアクセス` becomes `ドメインショウリャク にアクセス`. */
  lemma DomainExample(isIPv6: string -> bool, text: string)
    requires IPv6Alphabet(isIPv6)
    requires text == "example.com にアクセス"
    ensures ApplySpec(isIPv6, text) == DomainMarker + " にアクセス"
  {
    PlainText(text);
    ApplyPlain(isIPv6, text);
    DomainExampleReplace(isIPv6, text);
  }

  lemma DomainExampleReplace(isIPv6: string -> bool, text: string)
    requires IPv6Alphabet(isIPv6)
    requires text == "example.com にアクセス"
    ensures ReplaceSpec(DictionaryRules(isIPv6), text) == DomainMarker + " にアクセス"
  {
    DomainExampleTokens(text);
    DomainExampleOutputs(isIPv6);
    ReplaceSpec3(DictionaryRules(isIPv6), text, "", "example.com", " にアクセス", "", DomainMarker, " にアクセス");
    EmptyPrefix(DomainMarker);
  }

  lemma DomainExampleOutputs(isIPv6: string -> bool)
    requires IPv6Alphabet(isIPv6)
    ensures TokenOutput(DictionaryRules(isIPv6), "") == ""
    ensures TokenOutput(DictionaryRules(isIPv6), "example.com") == DomainMarker
    ensures TokenOutput(DictionaryRules(isIPv6), " にアクセス") == " にアクセス"
  {
    EmptyTokenKept(isIPv6);
    ExampleDomainToken(isIPv6, "example.com");
    ForeignTokenKept(isIPv6, " にアクセス", 1);
  }

  /** "192.168.1.1" is four dotted octets. */
  lemma ExampleIsIPv4(t: string)
    requires t == "192.168.1.1"
    ensures IsIPv4(t)
  {
    IndexOfIs(t, '.', 3);
    var t1 := t[4..];
    assert t[..3] == "192" && t1 == "168.1.1";
    IndexOfIs(t1, '.', 3);
    var t2 := t1[4..];
    assert t1[..3] == "168" && t2 == "1.1";
    IndexOfIs(t2, '.', 1);
    assert t2[..1] == "1" && t2[2..] == "1";
  }

  /** "IP" is neither an address nor a domain name. */
  lemma IPTokenKept(isIPv6: string -> bool, t: string)
    requires IPv6Alphabet(isIPv6)
    requires t == "IP"
    ensures TokenOutput(DictionaryRules(isIPv6), t) == t
  {
    assert IndexOf(t, '.') == None;
    assert IndexOf(t[..1], '.') == None;
    assert ':' !in t;
    OtherTokenOutput(isIPv6, t);
  }

  /** The sentence of the IPv4 example cut into its five runs. */
  lemma IPv4ExampleTokens(a: string, b: string, c: string, d: string, e: string)
    requires a == "サーバーの" && b == "IP" && c == "は " && d == "192.168.1.1" && e == " です"
    ensures IsSegmentation(a + b + c + d + e, [a, b, c, d, e])
  {
    Concat5(a, b, c, d, e);
    assert IsRun(a, false) && IsRun(b, true) && IsRun(c, false) && IsRun(d, true) && IsRun(e, false);
  }

  lemma KanaTokensKept(isIPv6: string -> bool)
    requires IPv6Alphabet(isIPv6)
    ensures TokenOutput(DictionaryRules(isIPv6), "サーバーの") == "サーバーの"
    ensures TokenOutput(DictionaryRules(isIPv6), "は ") == "は "
    ensures TokenOutput(DictionaryRules(isIPv6), " です") == " です"
  {
    ForeignTokenKept(isIPv6, "サーバーの", 0);
    ForeignTokenKept(isIPv6, "は ", 1);
    ForeignTokenKept(isIPv6, " です", 0);
  }

  lemma IPv4TokenOfExample(isIPv6: string -> bool)
    ensures TokenOutput(DictionaryRules(isIPv6), "192.168.1.1") == IPv4Marker
  {
    ExampleIsIPv4("192.168.1.1");
    IPv4TokenOutput(isIPv6, "192.168.1.1");
  }

  /**
   * `サーバーのIPは 192.168.1.1 です` becomes `サーバーのIPは アイピーブイフォーショウリャク です`:
   * of its five runs only the address is replaced.
   */
  lemma IPv4Example(isIPv6: string -> bool, text: string)
    requires IPv6Alphabet(isIPv6)
    requires text == "サーバーの" + "IP" + "は " + "192.168.1.1" + " です"
    ensures ApplySpec(isIPv6, text) == "サーバーの" + "IP" + "は " + IPv4Marker + " です"
  {
    PlainText(text);
    ApplyPlain(isIPv6, text);
    IPv4ExampleReplace(isIPv6, text);
  }

  lemma IPv4ExampleReplace(isIPv6: string -> bool, text: string)
    requires IPv6Alphabet(isIPv6)
    requires text == "サーバーの" + "IP" + "は " + "192.168.1.1" + " です"
    ensures ReplaceSpec(DictionaryRules(isIPv6), text) == "サーバーの" + "IP" + "は " + IPv4Marker + " です"
  {
    IPv4ExampleTokens("サーバーの", "IP", "は ", "192.168.1.1", " です");
    KanaTokensKept(isIPv6);
    IPTokenKept(isIPv6, "IP");
    IPv4TokenOfExample(isIPv6);
    ReplaceFourthOfFive(DictionaryRules(isIPv6), text, "サーバーの", "IP", "は ", "192.168.1.1", " です", IPv4Marker);
  }

  /** The example sentences hold no backtick, `h` or `f`. */
  lemma PlainText(text: string)
    requires || text == "サーバーの" + "IP" + "は " + "192.168.1.1" + " です"
             || text == "example.com にアクセス"
             || text == "" + "IPv6" + "アドレス" + ":" + " " + "2001:db8::1" + " を使用"
    ensures IsPlain(text)
  {
    if text == "example.com にアクセス" {
      PlainPieces(["example.com にアクセス"]);
    } else if text == "サーバーの" + "IP" + "は " + "192.168.1.1" + " です" {
      PlainPieces(["サーバーの", "IP", "は ", "192.168.1.1", " です"]);
      Concat5("サーバーの", "IP", "は ", "192.168.1.1", " です");
    } else {
      PlainPieces(["", "IPv6", "アドレス", ":", " ", "2001:db8::1", " を使用"]);
      Concat7("", "IPv6", "アドレス", ":", " ", "2001:db8::1", " を使用");
    }
  }

  /** Plain pieces put together are plain. */
  lemma {:induction false} PlainPieces(pieces: seq<string>)
    requires forall k :: 0 <= k < |pieces| ==> IsPlain(pieces[k])
    ensures IsPlain(Concat(pieces))
  {
    if pieces != [] {
      PlainPieces(pieces[..|pieces| - 1]);
    }
  }

  /** The sentence of the IPv6 example cut into its seven runs, the first one empty. */
  lemma IPv6ExampleTokens(a: string, b: string, c: string, d: string, e: string, f: string, g: string)
    requires a == "" && b == "IPv6" && c == "アドレス" && d == ":" && e == " " && f == "2001:db8::1" && g == " を使用"
    ensures IsSegmentation(a + b + c + d + e + f + g, [a, b, c, d, e, f, g])
  {
    Concat7(a, b, c, d, e, f, g);
    assert IsRun(a, false) && IsRun(b, true) && IsRun(c, false) && IsRun(d, true);
    assert IsRun(e, false) && IsRun(f, true) && IsRun(g, false);
  }

  /** "IPv6" and ":" hold no dot, and ":" is too short for an IPv6 address. */
  lemma LatinTokensKept(isIPv6: string -> bool, t: string)
    requires IPv6Alphabet(isIPv6)
    requires t == "IPv6" || t == ":"
    ensures TokenOutput(DictionaryRules(isIPv6), t) == t
  {
    assert IndexOf(t, '.') == None;
    assert |t| > 0 ==> IndexOf(t[..|t| - 1], '.') == None;
    assert t == "IPv6" ==> ':' !in t;
    OtherTokenOutput(isIPv6, t);
  }

  lemma IPv6ExampleOutputs(isIPv6: string -> bool)
    requires IPv6Alphabet(isIPv6)
    ensures TokenOutput(DictionaryRules(isIPv6), "アドレス") == "アドレス"
    ensures TokenOutput(DictionaryRules(isIPv6), " ") == " "
    ensures TokenOutput(DictionaryRules(isIPv6), " を使用") == " を使用"
  {
    ForeignTokenKept(isIPv6, "アドレス", 0);
    ForeignTokenKept(isIPv6, " ", 0);
    ForeignTokenKept(isIPv6, " を使用", 0);
  }

  lemma IPv6TokenOfExample(isIPv6: string -> bool)
    requires isIPv6("2001:db8::1")
    ensures TokenOutput(DictionaryRules(isIPv6), "2001:db8::1") == IPv6Marker
  {
    assert IndexOf("2001:db8::1", '.') == None;
    IPv6TokenOutput(isIPv6, "2001:db8::1");
  }

  /**
   * `IPv6アドレス: 2001:db8::1 を使用` becomes `IPv6アドレス: アイピーブイロクショウリャク を使用`
   * when the IPv6 rule accepts `2001:db8::1`.
   */
  lemma IPv6Example(isIPv6: string -> bool, text: string)
    requires IPv6Alphabet(isIPv6) && isIPv6("2001:db8::1")
    requires text == "" + "IPv6" + "アドレス" + ":" + " " + "2001:db8::1" + " を使用"
    ensures ApplySpec(isIPv6, text) == "" + "IPv6" + "アドレス" + ":" + " " + IPv6Marker + " を使用"
  {
    PlainText(text);
    ApplyPlain(isIPv6, text);
    IPv6ExampleReplace(isIPv6, text);
  }

  lemma IPv6ExampleReplace(isIPv6: string -> bool, text: string)
    requires IPv6Alphabet(isIPv6) && isIPv6("2001:db8::1")
    requires text == "" + "IPv6" + "アドレス" + ":" + " " + "2001:db8::1" + " を使用"
    ensures ReplaceSpec(DictionaryRules(isIPv6), text) == "" + "IPv6" + "アドレス" + ":" + " " + IPv6Marker + " を使用"
  {
    IPv6ExampleTokens("", "IPv6", "アドレス", ":", " ", "2001:db8::1", " を使用");
    EmptyTokenKept(isIPv6);
    LatinTokensKept(isIPv6, "IPv6");
    LatinTokensKept(isIPv6, ":");
    IPv6ExampleOutputs(isIPv6);
    IPv6TokenOfExample(isIPv6);
    ReplaceSixthOfSeven(DictionaryRules(isIPv6), text, "", "IPv6", "アドレス", ":", " ", "2001:db8::1", " を使用", IPv6Marker);
  }

  // ---------------------------------------------------------------------
  // Inline code is read out as written

  /** A text that is one inline code span is stashed whole under placeholder 0. */
  lemma StashWholeSpan(c: string)
    requires IsInlineSpan(c)
    ensures Stash(c) == Stashed(Placeholder(0), [c])
  {
    InlineCodeMatchSpec(c, |c|);
    assert c[..|c|] == c && c[0..] == c;
    assert MatchAt(InlineCode, c[0..]) == Some(|c|);
    assert Find(InlineCode, c, 0) == Some(Span(0, |c|));
    assert c[|c|..] == [];
    assert MatchAt(InlineCode, c[|c|..]).None?;
    assert StashFrom(c, |c|, 1) == Stashed([], []);
    assert c[0..0] + Placeholder(0) + [] == Placeholder(0);
    assert c[0..|c|] == c;
  }

  /** Placeholder 0 is made of Latin-class characters, none of them a backtick, `h` or `f`. */
  lemma PlaceholderZeroShape()
    ensures IsPlain(Placeholder(0)) && IsRun(Placeholder(0), true)
  {
    PlaceholderZero();
  }

  /** Placeholder 0 is one Latin-class run, after the empty leading token. */
  lemma PlaceholderZeroTokens(p: string)
    requires p == Placeholder(0)
    ensures IsSegmentation(p, ["", p])
  {
    PlaceholderZeroShape();
    ConcatCons("", [p]);
    ConcatCons(p, []);
    assert [""] + [p] == ["", p] && [p] + [] == [p];
  }

  /** Neither token of placeholder 0 is accepted by a rule. */
  lemma PlaceholderZeroOutputs(isIPv6: string -> bool, p: string)
    requires IPv6Alphabet(isIPv6)
    requires p == Placeholder(0)
    ensures TokenOutput(DictionaryRules(isIPv6), "") == ""
    ensures TokenOutput(DictionaryRules(isIPv6), p) == p
  {
    EmptyTokenKept(isIPv6);
    RulesRejectUnderscore(isIPv6, p, 0);
    OtherTokenOutput(isIPv6, p);
  }

  /** Placeholder 0 goes through the middle stages of `apply` untouched. */
  lemma PlaceholderZeroKept(isIPv6: string -> bool)
    requires IPv6Alphabet(isIPv6)
    ensures var p := Placeholder(0);
      ReplaceSpec(DictionaryRules(isIPv6), ReplaceAll(Url, ReplaceAll(CodeBlock, p, CodeBlockMarker), UrlMarker)) == p
  {
    var p := Placeholder(0);
    PlaceholderZeroShape();
    PlaceholderZeroTokens(p);
    PlaceholderZeroOutputs(isIPv6, p);
    MiddleKeepsLatinRun(DictionaryRules(isIPv6), p);
  }

  /** A plain Latin-class run that no rule takes goes through the middle stages untouched. */
  lemma MiddleKeepsLatinRun(opts: seq<RegexOption>, p: string)
    requires IsPlain(p) && IsSegmentation(p, ["", p])
    requires TokenOutput(opts, "") == "" && TokenOutput(opts, p) == p
    ensures ReplaceSpec(opts, ReplaceAll(Url, ReplaceAll(CodeBlock, p, CodeBlockMarker), UrlMarker)) == p
  {
    NoBacktickNoCode(p, CodeBlockMarker);
    NoSchemeNoUrl(p, UrlMarker);
    ReplaceSpecByTokens(opts, p, ["", p], ["", p]);
  }

  /** Restoring the one stashed span gives it back. */
  lemma RestoreWholeSpan(c: string)
    ensures RestoreFrom(Placeholder(0), [c], 0) == c
  {
    var p := Placeholder(0);
    ReplaceLiteralHere([], p, c);
    assert p + [] == p && c + [] == c;
    assert [c][1..] == [];
  }

  /**
   * A message that is one inline code span comes out exactly as written,
   * whatever it holds: an address, a domain name or a URL inside backticks
   * is not abbreviated.
   */
  lemma InlineCodeKept(isIPv6: string -> bool, c: string)
    requires IPv6Alphabet(isIPv6)
    requires IsInlineSpan(c)
    ensures ApplySpec(isIPv6, c) == c
  {
    StashWholeSpan(c);
    PlaceholderZeroKept(isIPv6);
    RestoreWholeSpan(c);
  }

  // ---------------------------------------------------------------------
  // URLs

  /**
   * An `https://` URL whose body is followed by a character that cannot be
   * part of a URL (or by nothing) ends right there, when its last character
   * is not trailing punctuation.
   */
  lemma UrlStopsBefore(b: string, y: string)
    requires |b| > 0 && forall k :: 0 <= k < |b| ==> IsUrlBodyChar(b[k])
    requires !IsUrlTrailPunct(b[|b| - 1])
    requires y != [] ==> !IsUrlBodyChar(y[0])
    ensures UrlMatch("https://" + b + y) == Some(8 + |b|)
  {
    var s := "https://" + b + y;
    var e := 8 + |b|;
    assert s[0..8] == "https://";
    assert SchemeLength(s) == Some(8);
    forall k | 8 <= k < e
      ensures IsUrlBodyChar(s[k])
    {
      assert s[k] == b[k - 8];
    }
    assert s[e - 1] == b[|b| - 1];
    if y != [] {
      assert s[e] == y[0];
      assert !IsUrlBodyChar(s[e]);
    }
    assert IsUrlMatch(s, e);
    UrlMatchSpec(s, e);
  }

  /** No URL starts where the text has no `h` or `f`. */
  lemma NoUrlStartsIn(s: string, from: nat, to: nat)
    requires from <= to <= |s|
    requires forall k :: from <= k < to ==> s[k] != 'h' && s[k] != 'f'
    ensures forall q :: from <= q < to ==> MatchAt(Url, s[q..]).None?
  {
    forall q | from <= q < to
      ensures MatchAt(Url, s[q..]).None?
    {
      assert s[q..][0] == s[q];
    }
  }

  /** A URL between two pieces of text without `h` or `f` is replaced by the marker and nothing else changes. */
  lemma ReplaceUrlBetween(x: string, u: string, y: string, marker: string)
    requires NoSchemeLetter(x) && NoSchemeLetter(y)
    requires UrlMatch(u + y) == Some(|u|)
    ensures ReplaceAll(Url, x + u + y, marker) == x + marker + y
  {
    var s := x + u + y;
    var e := |x| + |u|;
    NoUrlBefore(x, u, y);
    NoUrlAfter(x, u, y);
    assert s[|x|..] == u + y;
    ReplaceAllLeftmost(Url, s, 0, |x|, |u|, marker);
    ReplaceAllNoMatch(Url, s, e, marker);
    assert s[0..|x|] == x && s[e..] == y;
  }

  lemma NoUrlBefore(x: string, u: string, y: string)
    requires NoSchemeLetter(x)
    ensures var s := x + u + y; forall q :: 0 <= q < |x| ==> MatchAt(Url, s[q..]).None?
  {
    var s := x + u + y;
    assert forall k :: 0 <= k < |x| ==> s[k] == x[k];
    NoUrlStartsIn(s, 0, |x|);
  }

  lemma NoUrlAfter(x: string, u: string, y: string)
    requires NoSchemeLetter(y)
    ensures var s := x + u + y; forall q :: |x| + |u| <= q <= |s| ==> MatchAt(Url, s[q..]).None?
  {
    var s := x + u + y;
    var e := |x| + |u|;
    assert forall k :: e <= k < |s| ==> s[k] == y[k - e];
    NoUrlStartsIn(s, e, |s|);
    assert s[|s|..] == [] && MatchAt(Url, s[|s|..]).None?;
  }

  /** The markers are written in katakana, outside the Latin class. */
  lemma MarkersNonLatin()
    ensures IsRun(UrlMarker, false) && IsRun(CodeBlockMarker, false)
    ensures IsPlain(UrlMarker) && IsPlain(CodeBlockMarker)
  {
  }

  lemma RunPieces3(a: string, b: string, c: string, latin: bool)
    requires IsRun(a, latin) && IsRun(b, latin) && IsRun(c, latin)
    ensures IsRun(a + b + c, latin)
  {
    var s := a + b + c;
    forall i | 0 <= i < |s|
      ensures IsLatinClass(s[i]) == latin
    {
      if i < |a| {
        assert s[i] == a[i];
      } else if i < |a| + |b| {
        assert s[i] == b[i - |a|];
      } else {
        assert s[i] == c[i - |a| - |b|];
      }
    }
  }

  /** `replaceText` on a text that is one non-Latin run holding a foreign character. */
  lemma ForeignRunKept(isIPv6: string -> bool, t: string)
    requires IPv6Alphabet(isIPv6)
    requires |t| > 0 && IsRun(t, false) && IsForeign(t[0])
    ensures ReplaceSpec(DictionaryRules(isIPv6), t) == t
  {
    ConcatCons(t, []);
    assert [t] + [] == [t] && t + [] == t;
    assert IsSegmentation(t, [t]);
    ForeignTokenKept(isIPv6, t, 0);
    ReplaceSpecByTokens(DictionaryRules(isIPv6), t, [t], [t]);
  }

  /**
   * A sentence in non-Latin text around one URL `u` (a match of the URL
   * pattern that stops where `y` starts): the URL becomes the URL marker and
   * the rest is read as written.
   */
  lemma UrlSentence(isIPv6: string -> bool, x: string, u: string, y: string)
    requires IPv6Alphabet(isIPv6)
    requires IsPlain(x) && IsPlain(y) && NoBacktick(u)
    requires UrlMatch(u + y) == Some(|u|)
    requires |x| > 0 && IsForeign(x[0]) && IsRun(x, false) && IsRun(y, false)
    ensures ApplySpec(isIPv6, x + u + y) == x + UrlMarker + y
  {
    NoBacktick3(x, u, y);
    ApplyNoBacktick(isIPv6, x + u + y);
    ReplaceUrlBetween(x, u, y, UrlMarker);
    UrlMarkerRunKept(isIPv6, x, y);
  }

  /** Text without a backtick has no inline code and no code block: `apply` replaces URLs, then runs `replaceText`. */
  lemma ApplyNoBacktick(isIPv6: string -> bool, text: string)
    requires NoBacktick(text)
    ensures ApplySpec(isIPv6, text) ==
      ReplaceSpec(DictionaryRules(isIPv6), ReplaceAll(Url, text, UrlMarker))
  {
    NoBacktickNoCode(text, CodeBlockMarker);
  }

  lemma NoBacktick3(x: string, u: string, y: string)
    requires NoBacktick(x) && NoBacktick(u) && NoBacktick(y)
    ensures NoBacktick(x + u + y)
  {
    var text := x + u + y;
    forall k | 0 <= k < |text|
      ensures text[k] != '`'
    {
      if k < |x| {
        assert text[k] == x[k];
      } else if k < |x| + |u| {
        assert text[k] == u[k - |x|];
      } else {
        assert text[k] == y[k - |x| - |u|];
      }
    }
  }

  /** A non-Latin run starting with a foreign character, with the URL marker inside, is read as written. */
  lemma UrlMarkerRunKept(isIPv6: string -> bool, x: string, y: string)
    requires IPv6Alphabet(isIPv6)
    requires |x| > 0 && IsForeign(x[0]) && IsRun(x, false) && IsRun(y, false)
    ensures ReplaceSpec(DictionaryRules(isIPv6), x + UrlMarker + y) == x + UrlMarker + y
  {
    MarkersNonLatin();
    RunPieces3(x, UrlMarker, y, false);
    var t := x + UrlMarker + y;
    assert t[0] == x[0];
    ForeignRunKept(isIPv6, t);
  }

  /** `このサイト https://example.com をご覧ください` becomes `このサイト ユーアルエルショウリャク をご覧ください`. */
  lemma UrlExample(isIPv6: string -> bool, text: string)
    requires IPv6Alphabet(isIPv6)
    requires text == "このサイト " + ("https://" + "example.com") + " をご覧ください"
    ensures ApplySpec(isIPv6, text) == "このサイト " + UrlMarker + " をご覧ください"
  {
    UrlExamplePieces("このサイト ", "example.com", " をご覧ください");
    UrlSentence(isIPv6, "このサイト ", "https://" + "example.com", " をご覧ください");
  }

  lemma UrlExamplePieces(x: string, b: string, y: string)
    requires x == "このサイト " && b == "example.com" && y == " をご覧ください"
    ensures IsPlain(x) && IsPlain(y) && NoBacktick("https://" + b)
    ensures UrlMatch("https://" + b + y) == Some(|"https://" + b|)
    ensures |x| > 0 && IsForeign(x[0]) && IsRun(x, false) && IsRun(y, false)
  {
    UrlStopsBefore(b, y);
  }

  /**
   * `サイト（https://example.com）を確認` becomes `サイト（ユーアルエルショウリャク`: the URL
   * takes the closing full-width parenthesis and the text after it, which
   * are all URL body characters, so they are not read out.
   */
  lemma UrlTakesClosingParenthesis(isIPv6: string -> bool, text: string)
    requires IPv6Alphabet(isIPv6)
    requires text == "サイト（" + ("https://" + "example.com）を確認")
    ensures ApplySpec(isIPv6, text) == "サイト（" + UrlMarker
    ensures ApplySpec(isIPv6, text) != "サイト（" + UrlMarker + "）を確認"
  {
    var x, b := "サイト（", "example.com）を確認";
    UrlParenPieces(x, b);
    UrlSentence(isIPv6, x, "https://" + b, "");
    assert x + ("https://" + b) + "" == text;
    assert x + UrlMarker + "" == x + UrlMarker;
  }

  lemma UrlParenPieces(x: string, b: string)
    requires x == "サイト（" && b == "example.com）を確認"
    ensures IsPlain(x) && NoBacktick("https://" + b) && IsPlain("")
    ensures UrlMatch("https://" + b + "") == Some(|"https://" + b|)
    ensures |x| > 0 && IsForeign(x[0]) && IsRun(x, false) && IsRun("", false)
  {
    UrlStopsBefore(b, "");
  }

  // ---------------------------------------------------------------------
  // Fenced code blocks

  /** A backtick followed by another backtick, a newline or the end opens no inline code. */
  lemma NoInlineAfterBacktick(t: string)
    requires |t| <= 1 || t[1] == '`' || t[1] == '\n'
    ensures InlineCodeMatch(t).None?
  {
    if |t| >= 1 && t[0] == '`' {
      CodeRunEndOf(t, 1, 1);
    }
  }

  /**
   * A fenced block whose body starts on a new line and is followed by a new
   * line (or the end) holds no inline code, when nothing around it has a
   * backtick: every backtick of the fences is followed by a backtick or a
   * newline.
   */
  lemma FenceNoInlineCode(x: string, body: string, y: string)
    requires NoBacktick(x) && NoBacktick(body) && NoBacktick(y)
    requires |body| > 0 && body[0] == '\n'
    requires y == [] || y[0] == '\n'
    ensures var s := x + (Fence + body + Fence) + y; Stash(s) == Stashed(s, [])
  {
    var f := Fence + body + Fence;
    var s := x + f + y;
    var e := |x| + |f|;
    forall q | 0 <= q <= |s|
      ensures InlineCodeMatch(s[q..]).None?
    {
      if q < |s| {
        var t := s[q..];
        assert t[0] == s[q];
        if q < |x| {
          assert s[q] == x[q];
        } else if q < e - 3 - |body| {
          assert s[q + 1] == f[q + 1 - |x|];
          assert t[1] == s[q + 1];
          NoInlineAfterBacktick(t);
        } else if q < e - 3 {
          assert s[q] == body[q - |x| - 3];
        } else if q < e {
          if q + 1 < e {
            assert s[q + 1] == f[q + 1 - |x|];
            assert t[1] == s[q + 1];
          } else if q + 1 < |s| {
            assert s[q + 1] == y[0];
            assert t[1] == s[q + 1];
          }
          NoInlineAfterBacktick(t);
        } else {
          assert s[q] == y[q - e];
        }
      }
    }
    StashNoInlineCode(s);
  }

  /** A fenced block, with no backtick inside it or around it, is the one code-block match. */
  lemma ReplaceFenceBetween(x: string, body: string, y: string, marker: string)
    requires NoBacktick(x) && NoBacktick(body) && NoBacktick(y)
    ensures ReplaceAll(CodeBlock, x + (Fence + body + Fence) + y, marker) == x + marker + y
  {
    var f := Fence + body + Fence;
    var s := x + f + y;
    var e := |x| + |f|;
    NoFenceOutside(x, f, y);
    FenceIsBlock(body, y);
    assert s[|x|..] == f + y;
    ReplaceAllLeftmost(CodeBlock, s, 0, |x|, |f|, marker);
    ReplaceAllNoMatch(CodeBlock, s, e, marker);
    assert s[0..|x|] == x && s[e..] == y;
  }

  /** No code block starts in the text around a fenced block. */
  lemma NoFenceOutside(x: string, f: string, y: string)
    requires NoBacktick(x) && NoBacktick(y)
    ensures var s := x + f + y;
      && (forall q :: 0 <= q < |x| ==> MatchAt(CodeBlock, s[q..]).None?)
      && (forall q :: |x| + |f| <= q <= |s| ==> MatchAt(CodeBlock, s[q..]).None?)
  {
    var s := x + f + y;
    forall q | 0 <= q < |x| || |x| + |f| <= q <= |s|
      ensures MatchAt(CodeBlock, s[q..]).None?
    {
      if q < |s| {
        if q < |x| {
          assert s[q] == x[q];
        } else {
          assert s[q] == y[q - |x| - |f|];
        }
        Mismatch(s[q..], 0, Fence, 0);
      }
    }
  }

  /** A fence, a body without backticks and a fence make one code-block match. */
  lemma FenceIsBlock(body: string, y: string)
    requires NoBacktick(body)
    ensures CodeBlockMatch(Fence + body + Fence + y) == Some(|Fence + body + Fence|)
  {
    var f := Fence + body + Fence;
    var t := f + y;
    assert t[..|f|] == f;
    assert f[..3] == Fence && f[|f| - 3..] == Fence;
    forall k | 3 <= k < |f| - 3
      ensures !StartsAt(f, k, Fence)
    {
      assert f[k] == body[k - 3];
      Mismatch(f, k, Fence, 0);
    }
    CodeBlockMatchSpec(t, |f|);
  }

  /** With no `h` or `f` around it, a code block becomes the marker and the tokens are read from the rest. */
  lemma CodeBlockSentence(isIPv6: string -> bool, x: string, body: string, y: string)
    requires IsPlain(x) && IsPlain(y) && NoBacktick(body)
    requires |body| > 0 && body[0] == '\n'
    requires y == [] || y[0] == '\n'
    ensures ApplySpec(isIPv6, x + (Fence + body + Fence) + y) ==
      ReplaceSpec(DictionaryRules(isIPv6), x + CodeBlockMarker + y)
  {
    FenceNoInlineCode(x, body, y);
    ReplaceFenceBetween(x, body, y, CodeBlockMarker);
    MarkersNonLatin();
    NoScheme3(x, CodeBlockMarker, y);
    NoSchemeNoUrl(x + CodeBlockMarker + y, UrlMarker);
  }

  lemma NoScheme3(x: string, m: string, y: string)
    requires NoSchemeLetter(x) && NoSchemeLetter(m) && NoSchemeLetter(y)
    ensures NoSchemeLetter(x + m + y)
  {
    var s := x + m + y;
    forall k | 0 <= k < |s|
      ensures s[k] != 'h' && s[k] != 'f'
    {
      if k < |x| {
        assert s[k] == x[k];
      } else if k < |x| + |m| {
        assert s[k] == m[k - |x|];
      } else {
        assert s[k] == y[k - |x| - |m|];
      }
    }
  }

  /**
   * `コードは以下です:` and a fenced block on the following lines becomes
   * `コードは以下です:` and `コードブロックショウリャク` on its own line.
   */
  lemma CodeBlockExample(isIPv6: string -> bool, text: string)
    requires IPv6Alphabet(isIPv6)
    requires text == "コードは以下です" + ":" + "\n" + (Fence + "\nSystem.out.println(\"Hello\");\n" + Fence) + "\n以上です"
    ensures ApplySpec(isIPv6, text) == "コードは以下です" + ":" + ("\n" + CodeBlockMarker + "\n以上です")
  {
    var a, b, y := "コードは以下です", ":", "\n以上です";
    var body := "\nSystem.out.println(\"Hello\");\n";
    CodeBlockPieces(a, b, body, y);
    CodeBlockSentence(isIPv6, a + b + "\n", body, y);
    CodeBlockTokensKept(isIPv6, a, b, y);
  }

  lemma CodeBlockPieces(a: string, b: string, body: string, y: string)
    requires a == "コードは以下です" && b == ":" && body == "\nSystem.out.println(\"Hello\");\n" && y == "\n以上です"
    ensures IsPlain(a + b + "\n") && IsPlain(y) && NoBacktick(body)
    ensures |body| > 0 && body[0] == '\n' && |y| > 0 && y[0] == '\n'
  {
    PlainPieces([a, b, "\n"]);
    Concat3(a, b, "\n");
  }

  /** The three runs around the marker are each read as written. */
  lemma CodeBlockTokensKept(isIPv6: string -> bool, a: string, b: string, y: string)
    requires IPv6Alphabet(isIPv6)
    requires a == "コードは以下です" && b == ":" && y == "\n以上です"
    ensures ReplaceSpec(DictionaryRules(isIPv6), a + b + "\n" + CodeBlockMarker + y) == a + b + ("\n" + CodeBlockMarker + y)
  {
    var c := "\n" + CodeBlockMarker + y;
    CodeBlockSegmentation(a, b, y);
    CodeBlockOutputs(isIPv6, a, b, y);
    ReplaceSpec3(DictionaryRules(isIPv6), a + b + "\n" + CodeBlockMarker + y, a, b, c, a, b, c);
  }

  lemma CodeBlockSegmentation(a: string, b: string, y: string)
    requires a == "コードは以下です" && b == ":" && y == "\n以上です"
    ensures IsSegmentation(a + b + "\n" + CodeBlockMarker + y, [a, b, "\n" + CodeBlockMarker + y])
  {
    var c := "\n" + CodeBlockMarker + y;
    MarkersNonLatin();
    RunPieces3("\n", CodeBlockMarker, y, false);
    Concat3(a, b, c);
    assert IsRun(a, false) && IsRun(b, true);
  }

  lemma CodeBlockOutputs(isIPv6: string -> bool, a: string, b: string, y: string)
    requires IPv6Alphabet(isIPv6)
    requires a == "コードは以下です" && b == ":" && y == "\n以上です"
    ensures TokenOutput(DictionaryRules(isIPv6), a) == a
    ensures TokenOutput(DictionaryRules(isIPv6), b) == b
    ensures TokenOutput(DictionaryRules(isIPv6), "\n" + CodeBlockMarker + y) == "\n" + CodeBlockMarker + y
  {
    ForeignTokenKept(isIPv6, a, 0);
    LatinTokensKept(isIPv6, b);
    var c := "\n" + CodeBlockMarker + y;
    assert c[1] == CodeBlockMarker[0];
    ForeignTokenKept(isIPv6, c, 1);
  }

  // ---------------------------------------------------------------------
  // A fenced block on one line

  /** `Find` from a position past which no match starts finds nothing. */
  lemma FindNoneFrom(sc: Scanner, s: string, from: nat)
    requires from <= |s|
    requires forall q :: from <= q < |s| ==> MatchAt(sc, s[q..]).None?
    ensures Find(sc, s, from).None?
  {
    FindSkip(sc, s, from, |s|);
    assert s[|s|..] == [];
    assert MatchAt(sc, s[|s|..]).None?;
  }

  /**
   * Two backticks, an inline code span and two backticks (a fenced block on
   * one line, such as "```x```"): the scan for inline code, which runs first,
   * finds the span from the third backtick on and stashes it.
   */
  lemma OneLineFenceStash(t: string, c: string)
    requires t == "``" && IsInlineSpan(c)
    ensures Stash(t + c + t) == Stashed(t + Placeholder(0) + t, [c])
  {
    var s := t + c + t;
    var e := |t| + |c|;
    OneLineFenceFind(t, c);
    OneLineFenceTail(t, c);
    assert s[0..2] == t && s[2..e] == c && t + [] == t;
  }

  /** The first inline code span found is `c`, after the two leading backticks. */
  lemma OneLineFenceFind(t: string, c: string)
    requires t == "``" && IsInlineSpan(c)
    ensures Find(InlineCode, t + c + t, 0) == Some(Span(2, 2 + |c|))
  {
    var s := t + c + t;
    assert s[0] == '`' && s[1] == '`' && s[2] == '`';
    TicksOpenNoSpan(s);
    OneLineFenceSpan(t, c);
    FindSkip(InlineCode, s, 0, 2);
    assert Find(InlineCode, s, 2) == Some(Span(2, 2 + |c|));
  }

  /** Neither of the first two of three backticks opens an inline code span. */
  lemma TicksOpenNoSpan(s: string)
    requires |s| >= 3 && s[1] == '`' && s[2] == '`'
    ensures forall q :: 0 <= q < 2 ==> MatchAt(InlineCode, s[q..]).None?
  {
    forall q | 0 <= q < 2
      ensures MatchAt(InlineCode, s[q..]).None?
    {
      assert s[q..][1] == '`';
      NoInlineAfterBacktick(s[q..]);
    }
  }

  /** After the two leading backticks the inline code scanner takes exactly `c`. */
  lemma OneLineFenceSpan(t: string, c: string)
    requires t == "``" && IsInlineSpan(c)
    ensures MatchAt(InlineCode, (t + c + t)[2..]) == Some(|c|)
  {
    assert (t + c + t)[2..] == c + t && (c + t)[..|c|] == c;
    InlineCodeMatchSpec(c + t, |c|);
  }

  /** Nothing is stashed from the two trailing backticks. */
  lemma OneLineFenceTail(t: string, c: string)
    requires t == "``"
    ensures StashFrom(t + c + t, 2 + |c|, 1) == Stashed(t, [])
  {
    var s := t + c + t;
    var e := 2 + |c|;
    forall q | e <= q < |s|
      ensures MatchAt(InlineCode, s[q..]).None?
    {
      assert q + 1 < |s| ==> s[q..][1] == '`';
      NoInlineAfterBacktick(s[q..]);
    }
    FindNoneFrom(InlineCode, s, e);
    assert s[e..] == t;
  }

  /** Text made of at most two characters, a run without backticks and at most two characters has no fence. */
  lemma NoFenceAround(a: string, p: string, b: string, marker: string)
    requires |a| <= 2 && |b| <= 2 && |p| > 0 && NoBacktick(p)
    ensures ReplaceAll(CodeBlock, a + p + b, marker) == a + p + b
  {
    var s := a + p + b;
    forall q | 0 <= q <= |s|
      ensures MatchAt(CodeBlock, s[q..]).None?
    {
      if q < |a| {
        assert s[q..][|a| - q] == p[0];
        Mismatch(s[q..], 0, Fence, |a| - q);
      } else if q < |a| + |p| {
        assert s[q..][0] == p[q - |a|];
        Mismatch(s[q..], 0, Fence, 0);
      }
    }
    ReplaceAllNoMatch(CodeBlock, s, 0, marker);
  }

  /** The placeholder between the leftover backticks is read as written. */
  lemma OneLineFenceMiddle(isIPv6: string -> bool, t: string)
    requires IPv6Alphabet(isIPv6) && t == "``"
    ensures var m := t + Placeholder(0) + t;
      ReplaceSpec(DictionaryRules(isIPv6), ReplaceAll(Url, ReplaceAll(CodeBlock, m, CodeBlockMarker), UrlMarker)) == m
  {
    OneLineFenceNoMarkers(t);
    OneLineFenceTokens(isIPv6, t);
  }

  lemma OneLineFenceNoMarkers(t: string)
    requires t == "``"
    ensures var m := t + Placeholder(0) + t;
      ReplaceAll(Url, ReplaceAll(CodeBlock, m, CodeBlockMarker), UrlMarker) == m
  {
    var p := Placeholder(0);
    PlaceholderZeroShape();
    NoFenceAround(t, p, t, CodeBlockMarker);
    NoScheme3(t, p, t);
    NoSchemeNoUrl(t + p + t, UrlMarker);
  }

  lemma OneLineFenceTokens(isIPv6: string -> bool, t: string)
    requires IPv6Alphabet(isIPv6) && t == "``"
    ensures var m := t + Placeholder(0) + t; ReplaceSpec(DictionaryRules(isIPv6), m) == m
  {
    var p := Placeholder(0);
    OneLineFenceSegmentation(t, p);
    ForeignTokenKept(isIPv6, t, 0);
    PlaceholderZeroOutputs(isIPv6, p);
    ReplaceSpec3(DictionaryRules(isIPv6), t + p + t, t, p, t, t, p, t);
  }

  lemma OneLineFenceSegmentation(t: string, p: string)
    requires t == "``" && p == Placeholder(0)
    ensures IsSegmentation(t + p + t, [t, p, t])
  {
    PlaceholderZeroShape();
    Concat3(t, p, t);
    assert IsRun(t, false);
  }

  /** Putting the span back behind placeholder 0 gives the text as it was. */
  lemma OneLineFenceRestore(t: string, c: string)
    requires t == "``"
    ensures RestoreFrom(t + Placeholder(0) + t, [c], 0) == t + c + t
  {
    var p := Placeholder(0);
    ReplacePastPlain(t, p + t, 0, c);
    ReplaceLiteralHere(t, p, c);
    ReplaceLiteralAbsent(t, p, c);
    assert t + p + t == t + (p + t);
    assert [c][1..] == [];
  }

  /**
   * A fenced block written on one line, such as "```x```" or the
   * "``` コードブロック ```" shown as the dictionary's own example, is not
   * replaced by the code-block marker: the inline-code stash runs first and
   * takes its middle, so the text comes out as written.
   */
  lemma OneLineFenceKept(isIPv6: string -> bool, c: string)
    requires IPv6Alphabet(isIPv6) && IsInlineSpan(c)
    ensures ApplySpec(isIPv6, "``" + c + "``") == "``" + c + "``"
  {
    OneLineFenceStash("``", c);
    OneLineFenceMiddle(isIPv6, "``");
    OneLineFenceRestore("``", c);
  }

  /**
   * The code-block example the dictionary shows to users (the first part of
   * the second entry of `GetShowInfo`) is itself not abbreviated.
   */
  lemma ShowInfoFenceKept(isIPv6: string -> bool, text: string)
    requires IPv6Alphabet(isIPv6) && text == "``` コードブロック ```"
    ensures ApplySpec(isIPv6, text) == text
  {
    var c := "` コードブロック `";
    ShowInfoSpan(text, c);
    OneLineFenceKept(isIPv6, c);
  }

  lemma ShowInfoSpan(text: string, c: string)
    requires text == "``` コードブロック ```" && c == "` コードブロック `"
    ensures IsInlineSpan(c) && "``" + c + "``" == text
  {
  }

  // ---------------------------------------------------------------------
  // Inline code that is lost

  /**
   * An inline code span on its own line inside a fenced block, such as
   * "```\n`x`\n```", is lost: the stash leaves its placeholder inside the
   * fences, the code-block pass replaces the whole block, and the restore
   * finds no placeholder to put the span back into.
   */
  lemma FenceSwallowsSpan(isIPv6: string -> bool, c: string)
    requires IPv6Alphabet(isIPv6) && IsInlineSpan(c)
    ensures ApplySpec(isIPv6, Fence + ("\n" + c + "\n") + Fence) == CodeBlockMarker
  {
    FenceSpanStash(c);
    FencedPlaceholderBlock();
    MarkerKept(isIPv6, CodeBlockMarker);
    MarkersNonLatin();
    RestoreNoPlaceholder(CodeBlockMarker, c);
  }

  /** "```\n`x`\n```" comes out as the code-block marker alone. */
  lemma FenceSwallowsExample(isIPv6: string -> bool, s: string)
    requires IPv6Alphabet(isIPv6) && s == "```\n`x`\n```"
    ensures ApplySpec(isIPv6, s) == CodeBlockMarker
  {
    var c := "`x`";
    assert IsInlineSpan(c) && s == Fence + ("\n" + c + "\n") + Fence;
    FenceSwallowsSpan(isIPv6, c);
  }

  /** Each marker is one non-Latin run starting with a kana, which `replaceText` keeps. */
  lemma MarkerKept(isIPv6: string -> bool, m: string)
    requires IPv6Alphabet(isIPv6)
    requires m == CodeBlockMarker || m == UrlMarker
    ensures ReplaceSpec(DictionaryRules(isIPv6), m) == m
  {
    MarkersNonLatin();
    assert IsForeign(m[0]);
    ForeignRunKept(isIPv6, m);
  }

  /** The fenced block around the placeholder becomes the code-block marker, and no URL is found in it. */
  lemma FencedPlaceholderBlock()
    ensures var m := Fence + ("\n" + Placeholder(0) + "\n") + Fence;
      ReplaceAll(Url, ReplaceAll(CodeBlock, m, CodeBlockMarker), UrlMarker) == CodeBlockMarker
  {
    var body := "\n" + Placeholder(0) + "\n";
    PlaceholderZeroShape();
    NoBacktick3("\n", Placeholder(0), "\n");
    ReplaceFenceBetween([], body, [], CodeBlockMarker);
    assert [] + (Fence + body + Fence) + [] == Fence + body + Fence;
    assert [] + CodeBlockMarker + [] == CodeBlockMarker;
    MarkersNonLatin();
    NoSchemeNoUrl(CodeBlockMarker, UrlMarker);
  }

  /** The span on its own line is stashed; the fences and newlines stay. */
  lemma FenceSpanStash(c: string)
    requires IsInlineSpan(c)
    ensures Stash(Fence + ("\n" + c + "\n") + Fence) ==
      Stashed(Fence + ("\n" + Placeholder(0) + "\n") + Fence, [c])
  {
    var s := Fence + ("\n" + c + "\n") + Fence;
    var e := 4 + |c|;
    FenceSpanFind(c);
    assert s == (Fence + "\n" + c) + ("\n" + Fence);
    FenceTailNoSpan(Fence + "\n" + c, "\n" + Fence);
    assert s[0..4] == Fence + "\n" && s[4..e] == c;
    assert (Fence + "\n") + Placeholder(0) + ("\n" + Fence) == Fence + ("\n" + Placeholder(0) + "\n") + Fence;
  }

  /** The first inline code span found is `c`, after the opening fence and its newline. */
  lemma FenceSpanFind(c: string)
    requires IsInlineSpan(c)
    ensures Find(InlineCode, Fence + ("\n" + c + "\n") + Fence, 0) == Some(Span(4, 4 + |c|))
  {
    var s := Fence + ("\n" + c + "\n") + Fence;
    assert s[0] == '`' && s[1] == '`' && s[2] == '`' && s[3] == '\n';
    forall q | 0 <= q < 4
      ensures MatchAt(InlineCode, s[q..]).None?
    {
      assert s[q..][0] == s[q] && s[q..][1] == s[q + 1];
      NoInlineAfterBacktick(s[q..]);
    }
    FindSkip(InlineCode, s, 0, 4);
    assert s[4..][..|c|] == c;
    InlineCodeMatchSpec(s[4..], |c|);
    assert Find(InlineCode, s, 4) == Some(Span(4, 4 + |c|));
  }

  /** Nothing is stashed from a newline and a closing fence. */
  lemma FenceTailNoSpan(x: string, t: string)
    requires t == "\n" + Fence
    ensures StashFrom(x + t, |x|, 1) == Stashed(t, [])
  {
    var s := x + t;
    forall q | |x| <= q < |s|
      ensures MatchAt(InlineCode, s[q..]).None?
    {
      assert s[q..][0] == t[q - |x|];
      if q + 1 < |s| {
        assert s[q..][1] == t[q + 1 - |x|];
      }
      NoInlineAfterBacktick(s[q..]);
    }
    FindNoneFrom(InlineCode, s, |x|);
    assert s[|x|..] == t;
  }

  /**
   * A URL written directly against an inline code span, such as
   * "https://a`x`", takes in the span's placeholder (`_`, letters and digits
   * are URL characters), so the whole of it comes out as the URL marker.
   */
  lemma UrlSwallowsSpan(isIPv6: string -> bool, b: string, c: string)
    requires IPv6Alphabet(isIPv6) && IsInlineSpan(c)
    requires |b| > 0 && forall k :: 0 <= k < |b| ==> IsUrlBodyChar(b[k])
    ensures ApplySpec(isIPv6, "https://" + b + c) == UrlMarker
  {
    UrlBodyNoBacktick("https://" + b);
    SpanAfterPlain("https://" + b, c);
    UrlPlaceholderUrl(b);
    MarkerKept(isIPv6, UrlMarker);
    MarkersNonLatin();
    RestoreNoPlaceholder(UrlMarker, c);
  }

  /** "https://a`x`" comes out as the URL marker alone. */
  lemma UrlSwallowsExample(isIPv6: string -> bool, s: string)
    requires IPv6Alphabet(isIPv6) && s == "https://a`x`"
    ensures ApplySpec(isIPv6, s) == UrlMarker
  {
    var b, c := "a", "`x`";
    assert IsInlineSpan(c) && IsUrlBodyChar(b[0]) && s == "https://" + b + c;
    UrlSwallowsSpan(isIPv6, b, c);
  }

  /** The URL with the placeholder at its end is one URL match, replaced by the URL marker. */
  lemma UrlPlaceholderUrl(b: string)
    requires |b| > 0 && forall k :: 0 <= k < |b| ==> IsUrlBodyChar(b[k])
    ensures var m := "https://" + b + Placeholder(0);
      ReplaceAll(Url, ReplaceAll(CodeBlock, m, CodeBlockMarker), UrlMarker) == UrlMarker
  {
    var u := "https://" + b;
    var p := Placeholder(0);
    UrlBodyNoBacktick(u);
    PlaceholderZeroShape();
    assert NoBacktick(u + p) by {
      NoBacktick3(u, p, []);
      assert u + p + [] == u + p;
    }
    NoBacktickNoCode(u + p, CodeBlockMarker);
    UrlTakesPlaceholder(b);
    ReplaceUrlBetween([], u + p, [], UrlMarker);
    assert [] + (u + p) + [] == u + p && [] + UrlMarker + [] == UrlMarker;
  }

  lemma UrlBodyNoBacktick(u: string)
    requires |u| >= 8 && u[..8] == "https://"
    requires forall k :: 8 <= k < |u| ==> IsUrlBodyChar(u[k])
    ensures NoBacktick(u)
  {
    forall k | 0 <= k < |u|
      ensures u[k] != '`'
    {
      if k < 8 {
        assert u[k] == u[..8][k];
      }
    }
  }

  /** An inline code span after text without backticks is the one span stashed. */
  lemma SpanAfterPlain(u: string, c: string)
    requires NoBacktick(u) && IsInlineSpan(c)
    ensures Stash(u + c) == Stashed(u + Placeholder(0), [c])
  {
    var s := u + c;
    forall q | 0 <= q < |u|
      ensures MatchAt(InlineCode, s[q..]).None?
    {
      assert s[q..][0] == u[q];
    }
    FindSkip(InlineCode, s, 0, |u|);
    assert s[|u|..] == c && c[..|c|] == c;
    InlineCodeMatchSpec(c, |c|);
    assert Find(InlineCode, s, 0) == Some(Span(|u|, |s|));
    assert s[|s|..] == [];
    assert MatchAt(InlineCode, s[|s|..]).None?;
    assert StashFrom(s, |s|, 1) == Stashed([], []);
    assert s[0..|u|] == u && s[|u|..|s|] == c && u + Placeholder(0) + [] == u + Placeholder(0);
  }

  /** The URL runs on through placeholder 0, which ends in `_`, not in trailing punctuation. */
  lemma UrlTakesPlaceholder(b: string)
    requires |b| > 0 && forall k :: 0 <= k < |b| ==> IsUrlBodyChar(b[k])
    ensures UrlMatch("https://" + b + Placeholder(0) + []) == Some(|"https://" + b + Placeholder(0)|)
  {
    var p := Placeholder(0);
    PlaceholderZero();
    var bp := b + p;
    forall k | 0 <= k < |bp|
      ensures IsUrlBodyChar(bp[k])
    {
      if k < |b| {
        assert bp[k] == b[k];
      } else {
        assert bp[k] == p[k - |b|];
      }
    }
    assert bp[|bp| - 1] == '_';
    UrlStopsBefore(bp, []);
    assert "https://" + b + p == "https://" + bp;
  }

  /** Text that is one non-Latin run holds no `_`, so no placeholder: the restore leaves it as it is. */
  lemma RestoreNoPlaceholder(m: string, c: string)
    requires IsRun(m, false)
    ensures RestoreFrom(m, [c], 0) == m
  {
    var p := Placeholder(0);
    forall k | 0 <= k < |m|
      ensures m[k] != '_'
    {
      assert !IsLatinClass(m[k]);
    }
    PlaceholderZero();
    NoPlaceholderInPlain(m, [], p);
    assert m + [] == m;
    ReplaceLiteralAbsent(m, p, c);
    assert [c][1..] == [];
  }
}
