# Text normalisation core of I-TTS, modelled in Dafny

I-TTS reads chat messages aloud. Before the text reaches the speech
synthesiser it is rewritten, and this project models and proves three parts
of that rewriting.

- **`RegexUtil`, the replacement engine.** It cuts a text into alternating
  runs of "Latin-class" characters and other characters
  (`splitJapaneseEnglish`). It then replaces each run by the text of the
  first registered rule that accepts it. Rules are tried in ascending
  priority, and equal priorities keep their registration order
  (`replaceText`).
- **`AbbreviationDictionary.apply`, the built-in abbreviation dictionary.**
  It works in five stages:
  1. Inline code is stashed under numbered placeholders.
  2. Fenced code blocks become `コードブロックショウリャク`.
  3. URLs become `ユーアルエルショウリャク`.
  4. The replacement engine runs with three whole-token rules: IPv4
     addresses, IPv6 addresses and domain names.
  5. The inline code is put back.
- **`PatternValidator`.** It accepts a user-supplied regular expression
  only when it compiles and does not look prone to catastrophic
  backtracking.

The files:

| file | module | contents |
|---|---|---|
| `options.dfy` | `Options` | the `Option` type |
| `segmenter.dfy` | `Segmenter` | the character class, and the reference split as maximal runs; proved lossless and alternating, and shown to be the only such segmentation |
| `replacement.dfy` | `Replacement` | rules as `RegexOption` values, and the stable priority order as an insertion sort on indices; the class `RegexUtil`, whose field `optionList` is updated by `AddOption`, and whose methods `SplitJapaneseEnglish` and `ReplaceText` keep the loops of the source, proved against the reference functions |
| `text_patterns.dfy` | `TextPatterns` | the three fixed regular expressions of the dictionary as scanners, each with an exact characterisation; `Matcher.find`, `Matcher.replaceAll` and `String.replace` |
| `token_rules.dfy` | `TokenRules` | the IPv4 and domain predicates, with their characterisations |
| `inline_stash.dfy` | `InlineStash` | placeholders, stashing and restoring inline code, and the round trip |
| `abbreviation.dfy` | `Abbreviation` | the rule set, the reference `ApplySpec`, and the class `AbbreviationDictionary`, whose `Apply` method runs the stash loop, the two `replaceAll` stages, `replaceText` and the restore loop; the metadata getters |
| `abbreviation_examples.dfy` | `AbbreviationExamples` | what `apply` does to whole sentences: plain text, inline code, URLs, code blocks, and the inputs of the dictionary's unit tests |
| `pattern_validator.dfy` | `PatternValidation` | `ValidationResult`, the backtracking heuristic with its characterisation, and `Validate` |

Java strings are modelled as `seq<char>`, and Java regular expressions as
hand-written predicates and scanners over it. The IPv6 rule's expression and
`Pattern.compile` are parameters of the model (see "Left out").

## Model

Paths are relative to the repository root.

| member | source | states |
|---|---|---|
| Segmenter.RunLength | core/src/main/java/dev/felnull/itts/core/dict/RegexUtil.java:25-41 | the characters before the cut all have one class, and the character at the cut (if any) has the other class |
| Segmenter.SplitIsSegmentation | core/src/main/java/dev/felnull/itts/core/dict/RegexUtil.java:25-41 | the reference split concatenates back to the text; its tokens alternate non-Latin (even positions) and Latin (odd positions); only the first may be empty; the empty text has no tokens |
| Segmenter.SegmentationUnique | core/src/main/java/dev/felnull/itts/core/dict/RegexUtil.java:19-48 | at most one list of tokens has those properties, so they determine the result |
| Segmenter.SplitLossless | core/src/main/java/dev/felnull/itts/core/dict/RegexUtil.java:19-48 | concatenating the tokens gives back the input exactly |
| Segmenter.SplitLeadingEmpty | core/src/main/java/dev/felnull/itts/core/dict/RegexUtil.java:27-30 | the first token is empty exactly when the text starts with a Latin-class character; no other token is ever empty; empty input yields no tokens |
| Segmenter.LatinClassRangeQuirk | core/src/main/java/dev/felnull/itts/core/dict/RegexUtil.java:26 | the range `,-?` puts `;`, `<`, `=` and `>` in the Latin class; `@`, space and kana are outside it |
| Replacement.InsertIndex | core/src/main/java/dev/felnull/itts/core/dict/RegexUtil.java:75 | inserting a rule index after all rules of no greater priority adds exactly that index (as a multiset) and keeps the list ordered by priority, then registration order |
| Replacement.SortedIndices | core/src/main/java/dev/felnull/itts/core/dict/RegexUtil.java:75 | the stable sort gives a permutation of the rule indices, strictly ordered by (priority, registration order) |
| Replacement.FirstAccepting | core/src/main/java/dev/felnull/itts/core/dict/RegexUtil.java:75-80 | the rule found accepts the token and every earlier rule rejects it; `None` means every rule rejects it |
| Replacement.TokenOutputIsWinner | core/src/main/java/dev/felnull/itts/core/dict/RegexUtil.java:75-80 | a token becomes the replacement text of the accepting rule with the lowest priority, ties going to the rule registered first; such a winner exists whenever some rule accepts; a token no rule accepts is kept |
| Replacement.ReplaceSpecIdentity | core/src/main/java/dev/felnull/itts/core/dict/RegexUtil.java:82-84 | when no rule accepts any token, the text comes back unchanged |
| Replacement.ReplaceSpecNoRules | core/src/main/java/dev/felnull/itts/core/dict/RegexUtil.java:69-88 | with no rules, `replaceText(t) == t` |
| Replacement.RegexUtil.constructor | core/src/main/java/dev/felnull/itts/core/dict/RegexUtil.java:16 | a new engine has no rules |
| Replacement.RegexUtil.AddOption | core/src/main/java/dev/felnull/itts/core/dict/RegexUtil.java:58-61 | exactly one rule is appended after the existing ones, which are kept in order; the same object is returned |
| Replacement.RegexUtil.SplitJapaneseEnglish | core/src/main/java/dev/felnull/itts/core/dict/RegexUtil.java:19-48 | the tokens built by the character loop, including the final flush, have the segmentation properties and equal the reference split |
| Replacement.RegexUtil.ReplaceText | core/src/main/java/dev/felnull/itts/core/dict/RegexUtil.java:69-88 | the result is the in-order concatenation of one output per token; each output is the first accepting rule's text in sorted order, or else the token itself |
| TextPatterns.InlineCodeMatchSpec | core/src/main/java/dev/felnull/itts/core/dict/AbbreviationDictionary.java:22 | the inline-code scanner matches exactly a backtick, one or more characters that are neither backtick nor newline, and a backtick |
| TextPatterns.NextFence | core/src/main/java/dev/felnull/itts/core/dict/AbbreviationDictionary.java:27 | finds the first fence at or after a position, or reports that there is none |
| TextPatterns.CodeBlockMatchSpec | core/src/main/java/dev/felnull/itts/core/dict/AbbreviationDictionary.java:27 | the code-block scanner matches exactly from a fence to the nearest following fence (the lazy body) |
| TextPatterns.BodyLength | core/src/main/java/dev/felnull/itts/core/dict/AbbreviationDictionary.java:63 | the greedy URL body is the longest run of characters other than whitespace, U+3000, `<`, `>`, `"`, `{`, `}`, the vertical bar, the backslash, `^` and the backtick |
| TextPatterns.BackOff | core/src/main/java/dev/felnull/itts/core/dict/AbbreviationDictionary.java:64 | the lookbehind gives back characters until the URL no longer ends on `.,;:!?、。」』）`; it reports failure when every character is such punctuation |
| TextPatterns.UrlMatchSpec | core/src/main/java/dev/felnull/itts/core/dict/AbbreviationDictionary.java:62-65 | the URL scanner returns exactly the end that satisfies all of: a scheme `http://`, `https://` or `ftp://`; a non-empty body; a last character that is not trailing punctuation; every longer body would end on such punctuation |
| TextPatterns.UrlMatchSound | core/src/main/java/dev/felnull/itts/core/dict/AbbreviationDictionary.java:62-65 | every URL the scanner returns has the characterised shape |
| TextPatterns.UrlMatchComplete | core/src/main/java/dev/felnull/itts/core/dict/AbbreviationDictionary.java:62-65 | the scanner returns every end that has the characterised shape |
| TextPatterns.Find | core/src/main/java/dev/felnull/itts/core/dict/AbbreviationDictionary.java:74 | `find` returns the leftmost match at or after the position; no match starts before it; `None` means none starts anywhere |
| TextPatterns.FindSkip | core/src/main/java/dev/felnull/itts/core/dict/AbbreviationDictionary.java:74 | skipping positions where nothing matches does not change what `find` returns |
| TextPatterns.ReplaceAllLeftmost | core/src/main/java/dev/felnull/itts/core/dict/AbbreviationDictionary.java:84 | `replaceAll` keeps the text before the leftmost match, replaces that match by the marker, and continues after it |
| TextPatterns.ReplaceAllNoMatch | core/src/main/java/dev/felnull/itts/core/dict/AbbreviationDictionary.java:87 | `replaceAll` leaves text without a match unchanged |
| TextPatterns.ReplaceLiteralHere | core/src/main/java/dev/felnull/itts/core/dict/AbbreviationDictionary.java:94 | `String.replace` replaces an occurrence at the start and continues after it |
| TextPatterns.ReplaceLiteralAbsent | core/src/main/java/dev/felnull/itts/core/dict/AbbreviationDictionary.java:94 | `String.replace` leaves text without the key unchanged |
| TextPatterns.ReplaceLiteralPassThrough | core/src/main/java/dev/felnull/itts/core/dict/AbbreviationDictionary.java:94 | `String.replace` copies a prefix where no occurrence starts |
| TokenRules.OctetIsByteText | core/src/main/java/dev/felnull/itts/core/dict/AbbreviationDictionary.java:39 | the octet alternation accepts exactly the numbers 0 to 255, written without leading zeros |
| TokenRules.DottedOctetsSplit | core/src/main/java/dev/felnull/itts/core/dict/AbbreviationDictionary.java:39 | `n` octets, each followed by a dot, and then an octet: exactly `n + 1` dot-separated pieces, each an octet |
| TokenRules.IPv4Spec | core/src/main/java/dev/felnull/itts/core/dict/AbbreviationDictionary.java:38-42 | the IPv4 rule accepts a token if and only if it is four dot-separated numbers from 0 to 255 without leading zeros |
| TokenRules.DomainShapeSplit | core/src/main/java/dev/felnull/itts/core/dict/AbbreviationDictionary.java:34 | the domain shape holds if and only if there are at least two dot-separated pieces, every piece but the last is a label (a letter or digit, then letters, digits or hyphens), and the last is at least two ASCII letters |
| TokenRules.DomainShapeAlphabet | core/src/main/java/dev/felnull/itts/core/dict/AbbreviationDictionary.java:34 | a domain contains only ASCII letters, digits, hyphens and dots |
| TokenRules.DottedOctetsAlphabet | core/src/main/java/dev/felnull/itts/core/dict/AbbreviationDictionary.java:39 | an IPv4 address contains only digits and dots |
| TokenRules.RulesRejectUnderscore | core/src/main/java/dev/felnull/itts/core/dict/AbbreviationDictionary.java:33-58 | none of the three rules accepts a token that holds `_` |
| InlineStash.NatToStringValue | core/src/main/java/dev/felnull/itts/core/dict/AbbreviationDictionary.java:75 | the decimal rendering of the index reads back as that index |
| InlineStash.NatToStringInjective | core/src/main/java/dev/felnull/itts/core/dict/AbbreviationDictionary.java:75 | different indices render differently |
| InlineStash.Placeholder | core/src/main/java/dev/felnull/itts/core/dict/AbbreviationDictionary.java:75 | `__INLINE_CODE_` + index + `__`: its length, and that it starts with `_` |
| InlineStash.PlaceholderPrefix | core/src/main/java/dev/felnull/itts/core/dict/AbbreviationDictionary.java:75 | no placeholder starts another, different placeholder, whatever follows it, because of the closing `__` |
| InlineStash.StashShape | core/src/main/java/dev/felnull/itts/core/dict/AbbreviationDictionary.java:74-80 | the stashed text is the gaps between matches with placeholders numbered consecutively from 0 in between, in match order |
| InlineStash.StashWeave | core/src/main/java/dev/felnull/itts/core/dict/AbbreviationDictionary.java:74-80 | the input is the same gaps with the stashed spans in between, so placeholder `i` stands for exactly the `i`-th matched span |
| InlineStash.StashedCodesAreSpans | core/src/main/java/dev/felnull/itts/core/dict/AbbreviationDictionary.java:74-79 | every stashed span is an inline-code span |
| InlineStash.StashNoInlineCode | core/src/main/java/dev/felnull/itts/core/dict/AbbreviationDictionary.java:70-81 | text with no inline code is unchanged, and nothing is stashed |
| InlineStash.RestoreOne | core/src/main/java/dev/felnull/itts/core/dict/AbbreviationDictionary.java:94 | replacing one placeholder that occurs once after `_`-free text puts its span in its place |
| InlineStash.StashRoundTrip | core/src/main/java/dev/felnull/itts/core/dict/AbbreviationDictionary.java:70-95 | for text without `_`, restoring the stashed text gives the original text back |
| InlineStash.StashCollision | core/src/main/java/dev/felnull/itts/core/dict/AbbreviationDictionary.java:75-94 | a text that already spells `__INLINE_CODE_0__` before an inline-code span comes back with the span twice |
| Abbreviation.ThreeRulesOutput | core/src/main/java/dev/felnull/itts/core/dict/RegexUtil.java:75-80 | with priorities 2, 1, 1 the second rule wins, then the third, then the first; a token none accepts is kept |
| Abbreviation.DictionaryTokenOutput | core/src/main/java/dev/felnull/itts/core/dict/AbbreviationDictionary.java:32-58 | IPv4 is tried before IPv6, and both before the domain rule that was registered first; a token no rule accepts is kept |
| Abbreviation.IPv4TokenOutput | core/src/main/java/dev/felnull/itts/core/dict/AbbreviationDictionary.java:38-42 | an IPv4 token becomes `アイピーブイフォーショウリャク` |
| Abbreviation.IPv6TokenOutput | core/src/main/java/dev/felnull/itts/core/dict/AbbreviationDictionary.java:43-58 | an IPv6 token that is not IPv4 becomes `アイピーブイロクショウリャク` |
| Abbreviation.DomainTokenOutput | core/src/main/java/dev/felnull/itts/core/dict/AbbreviationDictionary.java:33-37 | a domain that is neither address becomes `ドメインショウリャク` |
| Abbreviation.OtherTokenOutput | core/src/main/java/dev/felnull/itts/core/dict/AbbreviationDictionary.java:32-58 | any other token is kept |
| Abbreviation.ForeignTokenKept | core/src/main/java/dev/felnull/itts/core/dict/AbbreviationDictionary.java:32-58 | a token holding a character outside every rule's alphabet (such as `_` or any kana) is kept |
| Abbreviation.DomainRejectsForeign | core/src/main/java/dev/felnull/itts/core/dict/AbbreviationDictionary.java:33-37 | the domain rule rejects such a token, including the case of a final line terminator |
| Abbreviation.AbbreviationDictionary.constructor | core/src/main/java/dev/felnull/itts/core/dict/AbbreviationDictionary.java:32-58 | the engine holds the domain (2), IPv4 (1) and IPv6 (1) rules, in that order |
| Abbreviation.AbbreviationDictionary.Apply | core/src/main/java/dev/felnull/itts/core/dict/AbbreviationDictionary.java:67-98 | the five stages, run imperatively, give the reference result |
| Abbreviation.StashInlineCode | core/src/main/java/dev/felnull/itts/core/dict/AbbreviationDictionary.java:70-81 | the find / appendReplacement / appendTail loop gives the stashed text and the spans in placeholder order |
| Abbreviation.StashStep | core/src/main/java/dev/felnull/itts/core/dict/AbbreviationDictionary.java:74-79 | one turn of that loop keeps the buffer plus the rest of the stash equal to the whole stash |
| Abbreviation.RestoreInlineCode | core/src/main/java/dev/felnull/itts/core/dict/AbbreviationDictionary.java:93-95 | the restore loop replaces placeholder `k` by span `k`, for `k` in order |
| Abbreviation.AbbreviationDictionary.IsBuiltIn | core/src/main/java/dev/felnull/itts/core/dict/AbbreviationDictionary.java:100-103 | the dictionary is built in |
| Abbreviation.AbbreviationDictionary.GetName | core/src/main/java/dev/felnull/itts/core/dict/AbbreviationDictionary.java:105-108 | its name is `省略辞書` |
| Abbreviation.AbbreviationDictionary.GetId | core/src/main/java/dev/felnull/itts/core/dict/AbbreviationDictionary.java:110-113 | its id is `abbreviation` |
| Abbreviation.AbbreviationDictionary.GetShowInfo | core/src/main/java/dev/felnull/itts/core/dict/AbbreviationDictionary.java:115-118 | two examples with distinct keys, as an immutable map requires; the second key is the one-line fenced block `コードブロック` between triple backticks |
| Abbreviation.AbbreviationDictionary.GetDefaultPriority | core/src/main/java/dev/felnull/itts/core/dict/AbbreviationDictionary.java:120-123 | the default priority is 1 |
| AbbreviationExamples.NoBacktickNoCode | core/src/main/java/dev/felnull/itts/core/dict/AbbreviationDictionary.java:70-84 | text without a backtick stashes nothing, and has no code block |
| AbbreviationExamples.NoSchemeNoUrl | core/src/main/java/dev/felnull/itts/core/dict/AbbreviationDictionary.java:87 | text without `h` or `f` has no URL |
| AbbreviationExamples.ApplyPlain | core/src/main/java/dev/felnull/itts/core/dict/AbbreviationDictionary.java:67-98 | for such text, `apply` is `replaceText` with the three rules |
| AbbreviationExamples.EmptyTokenKept | core/src/main/java/dev/felnull/itts/core/dict/AbbreviationDictionary.java:32-58 | the empty leading token is accepted by no rule |
| AbbreviationExamples.InlineCodeKept | core/src/main/java/dev/felnull/itts/core/dict/AbbreviationDictionary.java:69-95 | a message that is one inline-code span comes out exactly as written, even when it holds an address, a domain name or a URL |
| AbbreviationExamples.PlaceholderZeroKept | core/src/main/java/dev/felnull/itts/core/dict/AbbreviationDictionary.java:84-90 | a placeholder passes through the code-block, URL and token stages untouched |
| AbbreviationExamples.UrlStopsBefore | core/src/main/java/dev/felnull/itts/core/dict/AbbreviationDictionary.java:62-65 | an `https://` URL ends before the first character that cannot be in a URL, when it does not end on punctuation |
| AbbreviationExamples.UrlSentence | core/src/main/java/dev/felnull/itts/core/dict/AbbreviationDictionary.java:87 | in non-Latin text, a URL becomes `ユーアルエルショウリャク` and the text around it is kept |
| AbbreviationExamples.UrlExample | core/src/test/java/dev/felnull/itts/core/dict/AbbreviationDictionaryTest.java:26-28 | `このサイト https://example.com をご覧ください` becomes `このサイト ユーアルエルショウリャク をご覧ください` |
| AbbreviationExamples.UrlTakesClosingParenthesis | core/src/test/java/dev/felnull/itts/core/dict/AbbreviationDictionaryTest.java:71-73 | `サイト（https://example.com）を確認` becomes `サイト（ユーアルエルショウリャク`, not the output that test expects: the URL takes `）を確認` |
| AbbreviationExamples.CodeBlockSentence | core/src/main/java/dev/felnull/itts/core/dict/AbbreviationDictionary.java:84 | a fenced block whose body starts on a new line becomes `コードブロックショウリャク`, and the rest goes through `replaceText` |
| AbbreviationExamples.CodeBlockExample | core/src/test/java/dev/felnull/itts/core/dict/AbbreviationDictionaryTest.java:111-113 | the multi-line code-block message becomes `コードは以下です:`, a new line, `コードブロックショウリャク`, a new line and `以上です` |
| AbbreviationExamples.DomainExample | core/src/test/java/dev/felnull/itts/core/dict/AbbreviationDictionaryTest.java:119-121 | `example.com にアクセス` becomes `ドメインショウリャク にアクセス` |
| AbbreviationExamples.IPv4Example | core/src/test/java/dev/felnull/itts/core/dict/AbbreviationDictionaryTest.java:127-129 | `サーバーのIPは 192.168.1.1 です` becomes `サーバーのIPは アイピーブイフォーショウリャク です` |
| AbbreviationExamples.IPv6Example | core/src/test/java/dev/felnull/itts/core/dict/AbbreviationDictionaryTest.java:135-137 | `IPv6アドレス: 2001:db8::1 を使用` becomes `IPv6アドレス: アイピーブイロクショウリャク を使用`, given that the IPv6 rule accepts `2001:db8::1` |
| AbbreviationExamples.OneLineFenceKept | core/src/main/java/dev/felnull/itts/core/dict/AbbreviationDictionary.java:70-84 | a fenced block on one line (such as ` ```x``` `) is kept as written: the inline-code stash runs first and takes its middle, so no fence pair is left for the code-block stage |
| AbbreviationExamples.ShowInfoFenceKept | core/src/main/java/dev/felnull/itts/core/dict/AbbreviationDictionary.java:117 | the code-block example the dictionary shows users is itself not abbreviated |
| AbbreviationExamples.FenceSwallowsSpan | core/src/main/java/dev/felnull/itts/core/dict/AbbreviationDictionary.java:70-95 | an inline-code span on its own line inside a fenced block is lost: the stash leaves its placeholder between the fences, the code-block stage replaces the whole block, and the message comes out as `コードブロックショウリャク` alone |
| AbbreviationExamples.FenceSwallowsExample | core/src/main/java/dev/felnull/itts/core/dict/AbbreviationDictionary.java:70-95 | a fence, a new line, the span `x` in single backticks, a new line and a fence comes out as `コードブロックショウリャク` alone |
| AbbreviationExamples.UrlSwallowsSpan | core/src/main/java/dev/felnull/itts/core/dict/AbbreviationDictionary.java:70-95 | `https://` and URL characters written directly against an inline-code span take in its placeholder, and the message comes out as `ユーアルエルショウリャク` alone |
| AbbreviationExamples.UrlSwallowsExample | core/src/main/java/dev/felnull/itts/core/dict/AbbreviationDictionary.java:70-95 | `https://a` followed by the span `x` in single backticks comes out as `ユーアルエルショウリャク` alone |
| PatternValidation.ValidationResult.Success | core/src/main/java/dev/felnull/itts/core/util/PatternValidator.java:71-73 | a valid, well-formed result that holds the pattern and no error |
| PatternValidation.ValidationResult.Failure | core/src/main/java/dev/felnull/itts/core/util/PatternValidator.java:81-83 | an invalid, well-formed result whose error is the message, unchanged, and which has no pattern |
| PatternValidation.ValidationResult.GetPattern | core/src/main/java/dev/felnull/itts/core/util/PatternValidator.java:90-92 | the pattern when present; for a well-formed result it is present exactly when the result is valid |
| PatternValidation.WellFormedIsFactoryBuilt | core/src/main/java/dev/felnull/itts/core/util/PatternValidator.java:63-83 | the results where `valid` holds ⇔ the pattern is present ⇔ the error is absent are exactly those built by `success` and `failure` |
| PatternValidation.CloseFrom | core/src/main/java/dev/felnull/itts/core/util/PatternValidator.java:19 | `[^)]*\)`: the first `)` at or after a position |
| PatternValidation.RiskyIn | core/src/main/java/dev/felnull/itts/core/util/PatternValidator.java:19 | whether a `+`, `*` or vertical bar lies between two positions |
| PatternValidation.DangerousFrom | core/src/main/java/dev/felnull/itts/core/util/PatternValidator.java:53 | `find` succeeds exactly when the heuristic matches at some `(` at or after the position |
| PatternValidation.IsPotentiallyDangerous | core/src/main/java/dev/felnull/itts/core/util/PatternValidator.java:52-54 | a pattern is flagged if and only if some `(` is followed, with no `)` in between, by a `)` and then `+` or `*`, and the part between the parentheses contains `+`, `*` or a vertical bar |
| PatternValidation.DangerousSpec | core/src/main/java/dev/felnull/itts/core/util/PatternValidator.java:18-20 | the scan matches if and only if the pattern has a quantified group holding a quantifier (first alternative) or an alternation (second alternative) |
| PatternValidation.GroupIsFlagged | core/src/main/java/dev/felnull/itts/core/util/PatternValidator.java:19 | the scan matches at the `(` of every such group |
| PatternValidation.Validate | core/src/main/java/dev/felnull/itts/core/util/PatternValidator.java:32-44 | the result is well-formed; it is valid if and only if the pattern compiles and is not flagged; a compile error gives `無効な正規表現です: ` and the description, even for a flagged pattern; a flagged pattern that compiles gives the performance message; a valid result holds the pattern |
| PatternValidation.SyntaxErrorIffPrefix | core/src/main/java/dev/felnull/itts/core/util/PatternValidator.java:36-43 | the error starts with the syntax-error prefix if and only if the pattern does not compile |
| PatternValidation.RiskyGroupDangerous | core/src/main/java/dev/felnull/itts/core/util/PatternValidator.java:19 | a quantified group holding `+`, `*` or a vertical bar makes a pattern flagged |
| PatternValidation.UnquantifiedGroupsSafe | core/src/main/java/dev/felnull/itts/core/util/PatternValidator.java:19 | a pattern in which no `)` is followed by `+` or `*` is never flagged |
| PatternValidation.SingleGroupSafe | core/src/main/java/dev/felnull/itts/core/util/PatternValidator.java:19 | a pattern whose only group holds no `+`, `*` or vertical bar is not flagged, even when that group is quantified |
| PatternValidation.DangerousExamples | core/src/test/java/dev/felnull/itts/core/util/PatternValidatorTest.java:96-108 | `(a+)+`, `(a*)*`, `(a+)*`, `(a*)+`, `(x+)+b`, and the quantified alternations of `a` and `b` (with `+` and with `*`) and of `foo` and `bar` (with `*`) are flagged |
| PatternValidation.SafeExamples | core/src/test/java/dev/felnull/itts/core/util/PatternValidatorTest.java:112-126 | `^[a-z]+$`, `a+b+c+`, the anchored unquantified alternation of `foo` and `bar`, `(?:abc)`, `a{1,10}` and the other listed patterns are not flagged |
| PatternValidation.ValidExamples | core/src/test/java/dev/felnull/itts/core/util/PatternValidatorTest.java:24-42 | the listed patterns, including `a*b+c?` and `(?:abc)+`, are accepted with their pattern and no error, when they compile |
| PatternValidation.RedosExamples | core/src/test/java/dev/felnull/itts/core/util/PatternValidatorTest.java:71-87 | the listed patterns, including the quantified alternation of `x` and `y` followed by `z`, are refused with the performance message and no pattern, when they compile |

## Left out

- The IPv6 rule (`AbbreviationDictionary.java` lines 43-58) is a parameter `isIPv6` of the dictionary, not the 12-alternative expression. Where the sentence lemmas need it, they assume only `IPv6Alphabet`: an accepted token has at least two characters and a colon, and uses only ASCII letters, digits, `:`, `.` and `%`. Every alternative of the expression has that shape. `IPv6Example` assumes in addition that `2001:db8::1` is accepted.
- `Pattern.compile` is a parameter `compileError` of `Validate`. It gives the description of the syntax error, or `None` when the pattern compiles. The compiled `Pattern` object is modelled by its source text. `ValidExamples` and `RedosExamples` assume that their patterns compile.
- Java strings are UTF-16. The model works on Unicode scalar values, so `text.split("")` yielding surrogate halves for characters outside the Basic Multilingual Plane is not modelled.
- Abbreviation.RestoreInlineCode: replaces placeholders in index order. The source iterates a `HashMap`, whose order is unspecified. The round trip is proved only for index order. That any order gives the same text is an argument, not a proof. It needs four facts. No placeholder is a prefix of another; this one is proved (`PlaceholderPrefix`). Each placeholder occurs at most once in the text being restored. No stage cuts a placeholder in two. No restored span brings in a `_`. The last three are not proved for the text after the middle stages.
- InlineStash.StashRoundTrip: proved only for text without `_`. Text that already spells a placeholder is restored wrongly (`StashCollision`). The source does not exclude such text.
- AbbreviationExamples.InlineCodeKept: proved for a message that is one inline-code span. The general statement "every inline-code span appears verbatim in the output" does not hold, for three reasons. First, text that already spells a placeholder gets a second copy of a span (`StashCollision`). Second, a URL written directly against an inline-code span takes in its placeholder, because `_`, letters and digits are URL body characters, so the span is lost (`UrlSwallowsSpan`). Third, a span on its own line inside a fenced block is lost with the block (`FenceSwallowsSpan`). The source excludes none of these.
- The unit test at `AbbreviationDictionaryTest.java` lines 71-73 expects `）を確認` to survive. The URL body class at line 63 does not exclude `）` or kana, so the code gives a different result. The model follows the code (`UrlTakesClosingParenthesis`).
- A fenced block written on one line is not replaced by the code-block marker, because the inline-code stash runs first (`OneLineFenceKept`). The dictionary's own example at line 117 is such a block. This is modelled as the code behaves.
- `getShowInfo` returns an `ImmutableMap` that keeps insertion order. It is modelled as a sequence of key/value pairs.
- The `guildId` arguments of `apply` and `getShowInfo` are unused by the source, and ignored by the model.
- Runtime cost of regular expressions, and whether a flagged pattern really backtracks catastrophically, are not modelled: only the static heuristic is code.
- `GlobalDictionary`, the dictionary manager, the local cache and the debug printer are not part of this model.
