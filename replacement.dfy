/**
 * The priority replacement engine `RegexUtil`: an ordered list of rules
 * (priority, replacement text, whole-token test) and `replaceText`, which
 * splits the text into Latin/other tokens and replaces each token by the
 * replacement of the first rule, in ascending priority, that accepts it.
 */
module Replacement {
  import opened Options
  import opened Segmenter

  /** One registered rule (`RegexUtil.RegexOption`). */
  datatype RegexOption = RegexOption(priority: int, replacedText: string, test: string -> bool)

  /** Rule i is tried before rule j: lower priority first, equal priorities in registration order. */
  predicate Precedes(opts: seq<RegexOption>, i: nat, j: nat)
    requires i < |opts| && j < |opts|
  {
    opts[i].priority < opts[j].priority || (opts[i].priority == opts[j].priority && i < j)
  }

  ghost predicate IndicesIn(opts: seq<RegexOption>, idx: seq<nat>) {
    forall k :: 0 <= k < |idx| ==> idx[k] < |opts|
  }

  ghost predicate SortedBy(opts: seq<RegexOption>, idx: seq<nat>)
    requires IndicesIn(opts, idx)
  {
    forall a, b {:trigger Precedes(opts, idx[a], idx[b])} :: 0 <= a < b < |idx| ==> Precedes(opts, idx[a], idx[b])
  }

  /** Inserts rule index x, larger than every index in `sorted`, after all rules of no greater priority. */
  function InsertIndex(opts: seq<RegexOption>, x: nat, sorted: seq<nat>): (r: seq<nat>)
    requires x < |opts| && IndicesIn(opts, sorted) && SortedBy(opts, sorted)
    requires forall k :: 0 <= k < |sorted| ==> sorted[k] < x
    ensures multiset(r) == multiset(sorted) + multiset{x}
    ensures IndicesIn(opts, r) && SortedBy(opts, r)
  {
    if sorted == [] || opts[x].priority < opts[sorted[0]].priority then
      InsertIndexFront(opts, x, sorted);
      [x] + sorted
    else
      var tail := InsertIndex(opts, x, sorted[1..]);
      InsertIndexHead(opts, x, sorted, tail);
      [sorted[0]] + tail
  }

  lemma InsertIndexFront(opts: seq<RegexOption>, x: nat, sorted: seq<nat>)
    requires x < |opts| && IndicesIn(opts, sorted) && SortedBy(opts, sorted)
    requires sorted == [] || opts[x].priority < opts[sorted[0]].priority
    ensures IndicesIn(opts, [x] + sorted) && SortedBy(opts, [x] + sorted)
  {
    var r := [x] + sorted;
    forall a, b | 0 <= a < b < |r|
      ensures Precedes(opts, r[a], r[b])
    {
      assert r[b] == sorted[b - 1];
      if a == 0 {
        if b > 1 {
          assert Precedes(opts, sorted[0], sorted[b - 1]);
        }
      } else {
        assert r[a] == sorted[a - 1];
        assert Precedes(opts, sorted[a - 1], sorted[b - 1]);
      }
    }
  }

  lemma InsertIndexHead(opts: seq<RegexOption>, x: nat, sorted: seq<nat>, tail: seq<nat>)
    requires x < |opts| && IndicesIn(opts, sorted) && SortedBy(opts, sorted)
    requires forall k :: 0 <= k < |sorted| ==> sorted[k] < x
    requires sorted != [] && opts[sorted[0]].priority <= opts[x].priority
    requires multiset(tail) == multiset(sorted[1..]) + multiset{x}
    requires IndicesIn(opts, tail) && SortedBy(opts, tail)
    ensures multiset([sorted[0]] + tail) == multiset(sorted) + multiset{x}
    ensures IndicesIn(opts, [sorted[0]] + tail) && SortedBy(opts, [sorted[0]] + tail)
  {
    assert sorted == [sorted[0]] + sorted[1..];
    var r := [sorted[0]] + tail;
    forall b | 0 < b < |r|
      ensures Precedes(opts, r[0], r[b])
    {
      assert r[b] == tail[b - 1];
      assert r[b] in multiset(tail);
      if r[b] != x {
        assert r[b] in sorted[1..];
        var i :| 0 <= i < |sorted[1..]| && sorted[1..][i] == r[b];
        assert sorted[i + 1] == r[b];
      }
    }
    forall a, b | 0 <= a < b < |r|
      ensures Precedes(opts, r[a], r[b])
    {
      if a > 0 {
        assert r[a] == tail[a - 1] && r[b] == tail[b - 1];
      }
    }
  }

  /**
   * The indices of the first n rules in the order of a stable sort by
   * priority: a permutation of 0..n-1, strictly increasing under `Precedes`.
   */
  function SortedIndices(opts: seq<RegexOption>, n: nat): (r: seq<nat>)
    requires n <= |opts|
    ensures |r| == n
    ensures forall k :: 0 <= k < n ==> r[k] < n
    ensures forall j :: 0 <= j < n ==> j in r
    ensures IndicesIn(opts, r) && SortedBy(opts, r)
  {
    if n == 0 then []
    else
      var prev := SortedIndices(opts, n - 1);
      assert forall k :: 0 <= k < |prev| ==> prev[k] < n - 1;
      var r := InsertIndex(opts, n - 1, prev);
      MultisetMembers(prev, r, n - 1);
      r
  }

  /** Adding one element to a multiset adds one to the length and that element to the members. */
  lemma MultisetMembers(prev: seq<nat>, r: seq<nat>, x: nat)
    requires multiset(r) == multiset(prev) + multiset{x}
    requires forall k :: 0 <= k < |prev| ==> prev[k] < x
    requires forall j :: 0 <= j < x ==> j in prev
    requires |prev| == x
    ensures |r| == x + 1
    ensures forall k :: 0 <= k < |r| ==> r[k] < x + 1
    ensures forall j :: 0 <= j < x + 1 ==> j in r
  {
    assert |r| == |multiset(r)| == |multiset(prev)| + 1;
    forall k | 0 <= k < |r|
      ensures r[k] < x + 1
    {
      assert r[k] in multiset(r);
      if r[k] != x {
        assert r[k] in multiset(prev);
        var i :| 0 <= i < |prev| && prev[i] == r[k];
      }
    }
    forall j | 0 <= j < x + 1
      ensures j in r
    {
      if j < x {
        assert j in prev;
        assert j in multiset(prev);
      }
      assert j in multiset(r);
    }
  }

  /** `optionList.stream().sorted(Comparator.comparingInt(o -> o.priority))`, a stable sort. */
  function SortByPriority(opts: seq<RegexOption>): seq<RegexOption> {
    var idx := SortedIndices(opts, |opts|);
    seq(|idx|, k requires 0 <= k < |idx| => opts[idx[k]])
  }

  /** Position of the first rule at or after `from` whose test accepts the whole token. */
  function FirstAccepting(opts: seq<RegexOption>, token: string, from: nat): (r: Option<nat>)
    requires from <= |opts|
    ensures r.Some? ==> from <= r.value < |opts| && opts[r.value].test(token)
    ensures r.Some? ==> forall k :: from <= k < r.value ==> !opts[k].test(token)
    ensures r.None? ==> forall k :: from <= k < |opts| ==> !opts[k].test(token)
    decreases |opts| - from
  {
    if from == |opts| then None
    else if opts[from].test(token) then Some(from)
    else FirstAccepting(opts, token, from + 1)
  }

  /** What one token becomes: the replacement of the first accepting rule in sorted order, or itself. */
  function TokenOutput(opts: seq<RegexOption>, token: string): string {
    var sorted := SortByPriority(opts);
    match FirstAccepting(sorted, token, 0)
    case Some(k) => sorted[k].replacedText
    case None => token
  }

  /** The per-token outputs, one for each token, in order. */
  function Outputs(opts: seq<RegexOption>, tokens: seq<string>): (r: seq<string>)
    ensures |r| == |tokens|
    ensures forall k :: 0 <= k < |tokens| ==> r[k] == TokenOutput(opts, tokens[k])
  {
    seq(|tokens|, k requires 0 <= k < |tokens| => TokenOutput(opts, tokens[k]))
  }

  /** The first accepting rule is the one before which every rule rejects. */
  lemma FirstAcceptingAt(opts: seq<RegexOption>, token: string, q: nat)
    requires q < |opts| && opts[q].test(token)
    requires forall k :: 0 <= k < q ==> !opts[k].test(token)
    ensures FirstAccepting(opts, token, 0) == Some(q)
  {
  }

  lemma OutputsSnoc(opts: seq<RegexOption>, tokens: seq<string>, t: nat)
    requires t < |tokens|
    ensures Concat(Outputs(opts, tokens[..t + 1])) == Concat(Outputs(opts, tokens[..t])) + TokenOutput(opts, tokens[t])
  {
    assert Outputs(opts, tokens[..t + 1]) == Outputs(opts, tokens[..t]) + [TokenOutput(opts, tokens[t])];
    ConcatSnoc(Outputs(opts, tokens[..t]), TokenOutput(opts, tokens[t]));
  }

  /** Reference definition of `replaceText`: the concatenated outputs of the tokens of `Split`. */
  function ReplaceSpec(opts: seq<RegexOption>, text: string): string {
    Concat(Outputs(opts, Split(text)))
  }

  ghost predicate Accepts(opts: seq<RegexOption>, token: string, j: int) {
    0 <= j < |opts| && opts[j].test(token)
  }

  /** Rule j accepts the token and comes before every other rule that accepts it. */
  ghost predicate IsWinner(opts: seq<RegexOption>, token: string, j: int) {
    Accepts(opts, token, j) && forall m :: Accepts(opts, token, m) && m != j ==> Precedes(opts, j, m)
  }

  /**
   * A token becomes the replacement of the accepting rule with the lowest
   * priority, ties going to the rule registered first; a token no rule accepts
   * is kept as it is.
   */
  lemma TokenOutputIsWinner(opts: seq<RegexOption>, token: string)
    ensures (forall m :: 0 <= m < |opts| ==> !opts[m].test(token)) ==> TokenOutput(opts, token) == token
    ensures (exists m :: Accepts(opts, token, m)) ==> exists j :: IsWinner(opts, token, j)
    ensures forall j :: IsWinner(opts, token, j) ==> TokenOutput(opts, token) == opts[j].replacedText
  {
    var idx := SortedIndices(opts, |opts|);
    var sorted := SortByPriority(opts);
    assert forall k :: 0 <= k < |sorted| ==> sorted[k] == opts[idx[k]];
    match FirstAccepting(sorted, token, 0)
    case None =>
      forall m | 0 <= m < |opts|
        ensures !opts[m].test(token)
      {
        assert m in idx;
        var k :| 0 <= k < |idx| && idx[k] == m;
        assert sorted[k] == opts[m];
      }
    case Some(k) =>
      var j := idx[k];
      forall m | Accepts(opts, token, m) && m != j
        ensures Precedes(opts, j, m)
      {
        assert m in idx;
        var k' :| 0 <= k' < |idx| && idx[k'] == m;
        assert sorted[k'] == opts[m];
        assert k' != k;
        assert !(k' < k);
      }
      assert IsWinner(opts, token, j);
      forall j' | IsWinner(opts, token, j')
        ensures j' == j
      {
      }
  }

  /** When no rule accepts any token, `replaceText` gives back its input; in particular with no rules. */
  lemma ReplaceSpecIdentity(opts: seq<RegexOption>, text: string)
    requires forall k, m :: 0 <= k < |Split(text)| && 0 <= m < |opts| ==> !opts[m].test(Split(text)[k])
    ensures ReplaceSpec(opts, text) == text
  {
    var tokens := Split(text);
    forall k | 0 <= k < |tokens|
      ensures TokenOutput(opts, tokens[k]) == tokens[k]
    {
      TokenOutputIsWinner(opts, tokens[k]);
    }
    assert Outputs(opts, tokens) == tokens;
    SplitLossless(text);
  }

  /** With no rules registered, `replaceText(t) == t`. */
  lemma ReplaceSpecNoRules(text: string)
    ensures ReplaceSpec([], text) == text
  {
    ReplaceSpecIdentity([], text);
  }

  /**
   * The state of `splitJapaneseEnglish` after reading `prefix`: the closed
   * tokens, the token being built and the flag saying it is a Latin-class run.
   */
  ghost predicate SplitInv(prefix: string, created: seq<string>, tmp: string, en: bool) {
    && Concat(created) + tmp == prefix
    && Alternating(created, false)
    && NonEmptyAfterFirst(created)
    && en == (|created| % 2 == 1)
    && IsRun(tmp, en)
    && (prefix != [] ==> tmp != [])
    && (prefix == [] ==> created == [] && tmp == [])
  }

  /** Reading one character either extends the current token or closes it and starts the next. */
  lemma SplitInvStep(prefix: string, created: seq<string>, tmp: string, en: bool, c: char)
    requires SplitInv(prefix, created, tmp, en)
    ensures IsLatinClass(c) != en ==> SplitInv(prefix + [c], created + [tmp], [c], IsLatinClass(c))
    ensures IsLatinClass(c) == en ==> SplitInv(prefix + [c], created, tmp + [c], en)
  {
    if IsLatinClass(c) != en {
      SplitInvClose(prefix, created, tmp, en, c);
    } else {
      assert IsRun(tmp + [c], en) by {
        forall i | 0 <= i < |tmp + [c]| ensures IsLatinClass((tmp + [c])[i]) == en {
          if i < |tmp| { assert (tmp + [c])[i] == tmp[i]; }
        }
      }
    }
  }

  lemma SplitInvClose(prefix: string, created: seq<string>, tmp: string, en: bool, c: char)
    requires SplitInv(prefix, created, tmp, en)
    requires IsLatinClass(c) != en
    ensures SplitInv(prefix + [c], created + [tmp], [c], IsLatinClass(c))
  {
    ConcatSnoc(created, tmp);
    CloseToken(created, tmp);
  }

  /** At the end of the text the current token, when not empty, is the last one. */
  lemma SplitInvFinish(text: string, created: seq<string>, tmp: string, en: bool)
    requires SplitInv(text, created, tmp, en)
    ensures IsSegmentation(text, if tmp != [] then created + [tmp] else created)
  {
    if tmp != [] {
      ConcatSnoc(created, tmp);
      CloseToken(created, tmp);
    }
  }

  /** Closing a run of the class its position calls for keeps the tokens alternating and non-empty. */
  lemma CloseToken(created: seq<string>, tmp: string)
    requires Alternating(created, false) && NonEmptyAfterFirst(created)
    requires IsRun(tmp, |created| % 2 == 1)
    requires created != [] ==> tmp != []
    ensures Alternating(created + [tmp], false) && NonEmptyAfterFirst(created + [tmp])
  {
    var r := created + [tmp];
    forall k | 0 <= k < |r|
      ensures IsRun(r[k], if k % 2 == 0 then false else true)
    {
      if k < |created| {
        assert r[k] == created[k];
      }
    }
    forall k | 0 < k < |r|
      ensures r[k] != []
    {
      if k < |created| {
        assert r[k] == created[k];
      }
    }
  }

  /** `RegexUtil`: the registered rules and the replacement over Latin/other tokens. */
  class RegexUtil {
    var optionList: seq<RegexOption>

    constructor()
      ensures optionList == []
    {
      optionList := [];
    }

    /** Appends one rule at the end of the list and returns this object, for chaining. */
    method AddOption(priority: int, replacedText: string, test: string -> bool) returns (self: RegexUtil)
      modifies this
      ensures optionList == old(optionList) + [RegexOption(priority, replacedText, test)]
      ensures self == this
    {
      optionList := optionList + [RegexOption(priority, replacedText, test)];
      self := this;
    }

    /**
     * Walks the text one character at a time, cutting it where the character
     * class changes; a leading empty token is emitted when the text starts
     * with a Latin-class character.
     */
    method SplitJapaneseEnglish(text: string) returns (tokens: seq<string>)
      ensures IsSegmentation(text, tokens)
      ensures tokens == Split(text)
    {
      var createdText: seq<string> := [];
      var tmpText: string := [];
      var en := false;
      var i := 0;
      while i < |text|
        invariant 0 <= i <= |text|
        invariant SplitInv(text[..i], createdText, tmpText, en)
      {
        var c := text[i];
        SplitInvStep(text[..i], createdText, tmpText, en, c);
        if IsLatinClass(c) {
          if !en {
            createdText := createdText + [tmpText];
            tmpText := [];
          }
          en := true;
          tmpText := tmpText + [c];
        } else {
          if en {
            createdText := createdText + [tmpText];
            tmpText := [];
            en := false;
          }
          tmpText := tmpText + [c];
        }
        assert text[..i + 1] == text[..i] + [c];
        i := i + 1;
      }
      assert text[..i] == text;
      SplitInvFinish(text, createdText, tmpText, en);
      if tmpText != [] {
        createdText := createdText + [tmpText];
      }
      tokens := createdText;
      SplitIsSegmentation(text);
      SegmentationUnique(text, tokens, Split(text));
    }

    /** Replaces every token by the output of the first accepting rule in ascending priority. */
    method ReplaceText(text: string) returns (r: string)
      ensures r == ReplaceSpec(optionList, text)
    {
      var texts := SplitJapaneseEnglish(text);
      var result: string := [];
      var t := 0;
      while t < |texts|
        invariant 0 <= t <= |texts|
        invariant result == Concat(Outputs(optionList, texts[..t]))
      {
        var txt := texts[t];
        var replaced := false;
        var sorted := SortByPriority(optionList);
        var q := 0;
        while q < |sorted|
          invariant 0 <= q <= |sorted|
          invariant forall k :: 0 <= k < q ==> !sorted[k].test(txt)
          invariant !replaced && result == Concat(Outputs(optionList, texts[..t]))
        {
          if sorted[q].test(txt) {
            FirstAcceptingAt(sorted, txt, q);
            result := result + sorted[q].replacedText;
            replaced := true;
            break;
          }
          q := q + 1;
        }
        if !replaced {
          result := result + txt;
        }
        OutputsSnoc(optionList, texts, t);
        t := t + 1;
      }
      assert texts[..t] == texts;
      r := result;
    }
  }
}
