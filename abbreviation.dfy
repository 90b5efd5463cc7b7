/**
 * The built-in abbreviation dictionary: inline code is protected, fenced
 * code blocks and URLs are replaced by spoken markers, and every token the
 * segmenter produces is replaced when it is an IPv4 address, an IPv6
 * address or a domain name.
 */
module Abbreviation {
  import opened Options
  import opened Segmenter
  import opened Replacement
  import opened TextPatterns
  import opened TokenRules
  import opened InlineStash

  const DomainMarker: string := "ドメインショウリャク"
  const IPv4Marker: string := "アイピーブイフォーショウリャク"
  const IPv6Marker: string := "アイピーブイロクショウリャク"
  const CodeBlockMarker: string := "コードブロックショウリャク"
  const UrlMarker: string := "ユーアルエルショウリャク"

  /** The rules in registration order: domain (priority 2), IPv4 (1), IPv6 (1). */
  function DictionaryRules(isIPv6: string -> bool): seq<RegexOption> {
    [RegexOption(2, DomainMarker, IsDomain), RegexOption(1, IPv4Marker, IsIPv4), RegexOption(1, IPv6Marker, isIPv6)]
  }

  /**
   * What `apply` returns: inline code stashed, code blocks and then URLs
   * replaced, the token rules applied, and the stashed code put back in
   * placeholder order.
   */
  function ApplySpec(isIPv6: string -> bool, text: string): string {
    var stashed := Stash(text);
    var noBlocks := ReplaceAll(CodeBlock, stashed.text, CodeBlockMarker);
    var noUrls := ReplaceAll(Url, noBlocks, UrlMarker);
    var replaced := ReplaceSpec(DictionaryRules(isIPv6), noUrls);
    RestoreFrom(replaced, stashed.codes, 0)
  }

  /**
   * The output for one token: an IPv4 address wins over an IPv6 address,
   * which wins over a domain name (lower priority first, then registration
   * order); any other token is kept.
   */
  lemma DictionaryTokenOutput(isIPv6: string -> bool, token: string)
    ensures IsIPv4(token) ==> TokenOutput(DictionaryRules(isIPv6), token) == IPv4Marker
    ensures !IsIPv4(token) && isIPv6(token) ==> TokenOutput(DictionaryRules(isIPv6), token) == IPv6Marker
    ensures !IsIPv4(token) && !isIPv6(token) && IsDomain(token) ==>
      TokenOutput(DictionaryRules(isIPv6), token) == DomainMarker
    ensures !IsIPv4(token) && !isIPv6(token) && !IsDomain(token) ==>
      TokenOutput(DictionaryRules(isIPv6), token) == token
  {
    ThreeRulesOutput(DictionaryRules(isIPv6), token);
  }

  /** The case split of `DictionaryTokenOutput`, one outcome at a time. */
  lemma IPv4TokenOutput(isIPv6: string -> bool, token: string)
    requires IsIPv4(token)
    ensures TokenOutput(DictionaryRules(isIPv6), token) == IPv4Marker
  {
    DictionaryTokenOutput(isIPv6, token);
  }

  lemma IPv6TokenOutput(isIPv6: string -> bool, token: string)
    requires !IsIPv4(token) && isIPv6(token)
    ensures TokenOutput(DictionaryRules(isIPv6), token) == IPv6Marker
  {
    DictionaryTokenOutput(isIPv6, token);
  }

  lemma DomainTokenOutput(isIPv6: string -> bool, token: string)
    requires !IsIPv4(token) && !isIPv6(token) && IsDomain(token)
    ensures TokenOutput(DictionaryRules(isIPv6), token) == DomainMarker
  {
    DictionaryTokenOutput(isIPv6, token);
  }

  lemma OtherTokenOutput(isIPv6: string -> bool, token: string)
    requires !IsIPv4(token) && !isIPv6(token) && !IsDomain(token)
    ensures TokenOutput(DictionaryRules(isIPv6), token) == token
  {
    DictionaryTokenOutput(isIPv6, token);
  }

  /**
   * Three rules with priorities 2, 1, 1: the second wins when it accepts,
   * then the third, then the first.
   */
  lemma ThreeRulesOutput(rules: seq<RegexOption>, token: string)
    requires |rules| == 3
    requires rules[0].priority == 2 && rules[1].priority == 1 && rules[2].priority == 1
    ensures rules[1].test(token) ==> TokenOutput(rules, token) == rules[1].replacedText
    ensures !rules[1].test(token) && rules[2].test(token) ==> TokenOutput(rules, token) == rules[2].replacedText
    ensures !rules[1].test(token) && !rules[2].test(token) && rules[0].test(token) ==>
      TokenOutput(rules, token) == rules[0].replacedText
    ensures !rules[1].test(token) && !rules[2].test(token) && !rules[0].test(token) ==>
      TokenOutput(rules, token) == token
  {
    TokenOutputIsWinner(rules, token);
    if rules[1].test(token) {
      assert IsWinner(rules, token, 1);
    } else if rules[2].test(token) {
      assert IsWinner(rules, token, 2);
    } else if rules[0].test(token) {
      assert IsWinner(rules, token, 0);
    }
  }

  /**
   * A character none of the three rules can take: not an ASCII letter or
   * digit, not `- . : %`, and not a line terminator (which the domain rule
   * allows at the very end).
   */
  predicate IsForeign(c: char) {
    !IsAsciiAlnum(c) && c != '-' && c != '.' && c != ':' && c != '%' && !IsLineTerminator(c)
  }

  /** A token holding a foreign character (such as `_` or any kana) is kept as it is. */
  lemma ForeignTokenKept(isIPv6: string -> bool, token: string, i: nat)
    requires IPv6Alphabet(isIPv6)
    requires i < |token| && IsForeign(token[i])
    ensures TokenOutput(DictionaryRules(isIPv6), token) == token
  {
    if IsIPv4(token) {
      DottedOctetsAlphabet(token, 3);
    }
    DomainRejectsForeign(token, i);
    OtherTokenOutput(isIPv6, token);
  }

  lemma DomainRejectsForeign(t: string, i: nat)
    requires i < |t| && IsForeign(t[i])
    ensures !IsDomain(t)
  {
    if DomainShape(t) {
      DomainShapeAlphabet(t);
    }
    if |t| >= 1 && DomainShape(t[..|t| - 1]) {
      DomainShapeAlphabet(t[..|t| - 1]);
    }
    if |t| >= 2 && DomainShape(t[..|t| - 2]) {
      DomainShapeAlphabet(t[..|t| - 2]);
    }
  }

  /** The dictionary's rule set as `RegexUtil` holds it, and the fixed metadata. */
  class AbbreviationDictionary {
    /** The IPv6 rule's test, which this model leaves abstract. */
    const isIPv6: string -> bool
    const regexUtil: RegexUtil

    ghost predicate Valid()
      reads this, regexUtil
    {
      regexUtil.optionList == DictionaryRules(isIPv6)
    }

    /** Registers the domain, IPv4 and IPv6 rules in that order. */
    constructor(isIPv6: string -> bool)
      ensures Valid() && this.isIPv6 == isIPv6 && fresh(regexUtil)
    {
      var util := new RegexUtil();
      var u1 := util.AddOption(2, DomainMarker, IsDomain);
      var u2 := u1.AddOption(1, IPv4Marker, IsIPv4);
      var u3 := u2.AddOption(1, IPv6Marker, isIPv6);
      this.isIPv6 := isIPv6;
      regexUtil := u3;
    }

    /** `apply`: the pipeline of `ApplySpec`. */
    method Apply(text: string, guildId: int) returns (r: string)
      requires Valid()
      ensures r == ApplySpec(isIPv6, text)
    {
      var t, codes := StashInlineCode(text);
      t := ReplaceAll(CodeBlock, t, CodeBlockMarker);
      t := ReplaceAll(Url, t, UrlMarker);
      t := regexUtil.ReplaceText(t);
      r := RestoreInlineCode(t, codes);
    }

    function IsBuiltIn(): (b: bool)
      ensures b
    {
      true
    }

    function GetName(): (name: string)
      ensures name == "省略辞書"
    {
      "省略辞書"
    }

    function GetId(): (id: string)
      ensures id == "abbreviation"
    {
      "abbreviation"
    }

    /** The two examples shown to users, in insertion order: what is abbreviated, and how it is called. */
    function GetShowInfo(guildId: int): (info: seq<(string, string)>)
      ensures |info| == 2 && info[0].0 != info[1].0
      ensures info[1].0 == "``` コードブロック ```"
    {
      [("https://...", "URL省略"), ("``` コードブロック ```", "コードブロック省略")]
    }

    function GetDefaultPriority(): (p: int)
      ensures p == 1
    {
      1
    }
  }

  /**
   * The first part of `apply`: each inline code span, leftmost first, is
   * replaced by the next numbered placeholder and remembered.
   */
  method StashInlineCode(text: string) returns (t: string, codes: seq<string>)
    ensures Stashed(t, codes) == Stash(text)
  {
    codes := [];
    var sb: string := [];
    var pos: nat := 0;
    var inlineIndex: nat := 0;
    var m := Find(InlineCode, text, 0);
    while m.Some?
      invariant pos <= |text|
      invariant m == Find(InlineCode, text, pos)
      invariant inlineIndex == |codes|
      invariant Stash(text).text == sb + StashFrom(text, pos, inlineIndex).text
      invariant Stash(text).codes == codes + StashFrom(text, pos, inlineIndex).codes
      decreases |text| - pos
    {
      var sp := m.value;
      StashStep(text, pos, inlineIndex, sb, codes);
      codes := codes + [text[sp.start..sp.end]];
      sb := sb + text[pos..sp.start] + Placeholder(inlineIndex);
      inlineIndex := inlineIndex + 1;
      pos := sp.end;
      m := Find(InlineCode, text, pos);
    }
    assert codes + [] == codes;
    t := sb + text[pos..];
  }

  /** The last part of `apply`: placeholder k is replaced by codes[k], for k in order. */
  method RestoreInlineCode(text: string, codes: seq<string>) returns (r: string)
    ensures r == RestoreFrom(text, codes, 0)
  {
    r := text;
    var k := 0;
    while k < |codes|
      invariant 0 <= k <= |codes|
      invariant RestoreFrom(r, codes[k..], k) == RestoreFrom(text, codes, 0)
    {
      assert codes[k..][1..] == codes[k + 1..];
      r := ReplaceLiteral(r, Placeholder(k), codes[k]);
      k := k + 1;
    }
  }

  /** One turn of the stash loop keeps the loop's account of the whole stash. */
  lemma StashStep(text: string, pos: nat, i: nat, sb: string, codes: seq<string>)
    requires pos <= |text| && Find(InlineCode, text, pos).Some?
    ensures var sp := Find(InlineCode, text, pos).value;
      && sb + StashFrom(text, pos, i).text
        == (sb + text[pos..sp.start] + Placeholder(i)) + StashFrom(text, sp.end, i + 1).text
      && codes + StashFrom(text, pos, i).codes
        == (codes + [text[sp.start..sp.end]]) + StashFrom(text, sp.end, i + 1).codes
  {
    var sp := Find(InlineCode, text, pos).value;
    var rest := StashFrom(text, sp.end, i + 1);
    assert StashFrom(text, pos, i) == Stashed(text[pos..sp.start] + Placeholder(i) + rest.text, [text[sp.start..sp.end]] + rest.codes);
    var gap, p, code := text[pos..sp.start], Placeholder(i), [text[sp.start..sp.end]];
    Assoc3(sb, gap, p);
    Assoc3(sb, gap + p, rest.text);
    Assoc3(codes, code, rest.codes);
  }
}
