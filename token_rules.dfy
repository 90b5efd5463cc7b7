/**
 * The whole-token tests the abbreviation dictionary registers with the
 * replacement engine: the domain-name shape, the IPv4 address and the IPv6
 * address.  The IPv6 regular expression is not part of this model; it enters
 * as a predicate, and `IPv6Alphabet` states the little the lemmas need to
 * know about it.
 */
module TokenRules {
  import opened Options
  import opened TextPatterns

  /** Position of the first `c` in s at or after `from`. */
  function IndexFrom(s: string, c: char, from: nat): (r: Option<nat>)
    requires from <= |s|
    ensures r.Some? ==> from <= r.value < |s| && s[r.value] == c
    ensures r.Some? ==> forall k :: from <= k < r.value ==> s[k] != c
    ensures r.None? ==> forall k :: from <= k < |s| ==> s[k] != c
    decreases |s| - from
  {
    if from == |s| then None
    else if s[from] == c then Some(from)
    else IndexFrom(s, c, from + 1)
  }

  function IndexOf(s: string, c: char): Option<nat> {
    IndexFrom(s, c, 0)
  }

  /** The first occurrence is the one with no earlier occurrence before it. */
  lemma IndexOfIs(s: string, c: char, p: nat)
    requires p < |s| && s[p] == c
    requires forall k :: 0 <= k < p ==> s[k] != c
    ensures IndexOf(s, c) == Some(p)
  {
  }

  /** The pieces of s between the occurrences of c (every piece kept, empty ones included). */
  function SplitOn(s: string, c: char): (parts: seq<string>)
    ensures |parts| >= 1
    decreases |s|
  {
    match IndexOf(s, c)
    case None => [s]
    case Some(p) => [s[..p]] + SplitOn(s[p + 1..], c)
  }

  // ---------------------------------------------------------------------
  // IPv4: ^((25[0-5]|2[0-4][0-9]|1[0-9][0-9]|[1-9]?[0-9])\.){3}(25[0-5]|2[0-4][0-9]|1[0-9][0-9]|[1-9]?[0-9])$

  /** One octet, alternative by alternative. */
  predicate IsOctet(o: string) {
    || (|o| == 3 && o[0] == '2' && o[1] == '5' && '0' <= o[2] <= '5')
    || (|o| == 3 && o[0] == '2' && '0' <= o[1] <= '4' && IsAsciiDigit(o[2]))
    || (|o| == 3 && o[0] == '1' && IsAsciiDigit(o[1]) && IsAsciiDigit(o[2]))
    || (|o| == 2 && '1' <= o[0] <= '9' && IsAsciiDigit(o[1]))
    || (|o| == 1 && IsAsciiDigit(o[0]))
  }

  /**
   * The whole of s is n octets each followed by a dot, then one more octet.
   * An octet holds no dot, so each group ends at the first dot.
   */
  predicate DottedOctets(s: string, n: nat)
    decreases n
  {
    if n == 0 then IsOctet(s)
    else
      match IndexOf(s, '.')
      case None => false
      case Some(p) => IsOctet(s[..p]) && DottedOctets(s[p + 1..], n - 1)
  }

  /** The IPv4 rule's test (`matches`, so the whole token). */
  predicate IsIPv4(s: string) {
    DottedOctets(s, 3)
  }

  predicate AllDigits(o: string) {
    forall k :: 0 <= k < |o| ==> IsAsciiDigit(o[k])
  }

  function DigitValue(c: char): nat
    requires IsAsciiDigit(c)
  {
    c as int - '0' as int
  }

  /** The number a string of decimal digits denotes. */
  function DecimalValue(o: string): nat
    requires AllDigits(o)
  {
    if o == [] then 0 else 10 * DecimalValue(o[..|o| - 1]) + DigitValue(o[|o| - 1])
  }

  /** A decimal number from 0 to 255 of one to three digits, with no leading zero. */
  ghost predicate IsByteText(o: string) {
    && 1 <= |o| <= 3
    && AllDigits(o)
    && (|o| > 1 ==> o[0] != '0')
    && DecimalValue(o) <= 255
  }

  lemma DecimalValue1(o: string)
    requires |o| == 1 && AllDigits(o)
    ensures DecimalValue(o) == DigitValue(o[0])
  {
    assert o[..0] == [];
  }

  lemma DecimalValue2(o: string)
    requires |o| == 2 && AllDigits(o)
    ensures DecimalValue(o) == 10 * DigitValue(o[0]) + DigitValue(o[1])
  {
    var a := o[..1];
    assert a[0] == o[0];
    DecimalValue1(a);
  }

  lemma DecimalValue3(o: string)
    requires |o| == 3 && AllDigits(o)
    ensures DecimalValue(o) == 100 * DigitValue(o[0]) + 10 * DigitValue(o[1]) + DigitValue(o[2])
  {
    var b := o[..2];
    assert b[0] == o[0] && b[1] == o[1];
    DecimalValue2(b);
  }

  /** The octet alternation accepts exactly the numbers 0..255 written without leading zeros. */
  lemma OctetIsByteText(o: string)
    ensures IsOctet(o) <==> IsByteText(o)
  {
    if |o| == 3 && AllDigits(o) {
      DecimalValue3(o);
    } else if |o| == 2 && AllDigits(o) {
      DecimalValue2(o);
      assert DigitValue(o[0]) <= 9 && DigitValue(o[1]) <= 9;
    } else if |o| == 1 && AllDigits(o) {
      DecimalValue1(o);
    }
  }

  /** n dotted octets then one more: exactly n + 1 dot-separated pieces, each an octet. */
  lemma {:induction false} DottedOctetsSplit(s: string, n: nat)
    ensures DottedOctets(s, n) <==>
      |SplitOn(s, '.')| == n + 1 && forall k :: 0 <= k < n + 1 ==> IsOctet(SplitOn(s, '.')[k])
    decreases n
  {
    match IndexOf(s, '.')
    case None =>
      assert SplitOn(s, '.') == [s] && [s][0] == s;
      assert n > 0 ==> !DottedOctets(s, n);
    case Some(p) =>
      var rest := SplitOn(s[p + 1..], '.');
      assert SplitOn(s, '.') == [s[..p]] + rest;
      if n == 0 {
        OctetHasNoDot(s, p);
      } else {
        DottedOctetsSplit(s[p + 1..], n - 1);
        OctetsCons(s[..p], rest, n);
      }
  }

  /** An octet holds no dot. */
  lemma OctetHasNoDot(o: string, p: nat)
    requires p < |o| && o[p] == '.'
    ensures !IsOctet(o)
  {
  }

  /** n + 1 octets are a first octet and n more. */
  lemma OctetsCons(x: string, rest: seq<string>, n: nat)
    ensures var parts := [x] + rest;
      (|parts| == n + 1 && forall k :: 0 <= k < n + 1 ==> IsOctet(parts[k])) <==>
      (IsOctet(x) && |rest| == n && forall k :: 0 <= k < n ==> IsOctet(rest[k]))
  {
    var parts := [x] + rest;
    if |parts| == n + 1 && forall k :: 0 <= k < n + 1 ==> IsOctet(parts[k]) {
      assert IsOctet(parts[0]);
      forall k | 0 <= k < n
        ensures IsOctet(rest[k])
      {
        assert rest[k] == parts[k + 1];
      }
    }
    if IsOctet(x) && |rest| == n && forall k :: 0 <= k < n ==> IsOctet(rest[k]) {
      forall k | 0 <= k < n + 1
        ensures IsOctet(parts[k])
      {
        if k > 0 {
          assert parts[k] == rest[k - 1];
        }
      }
    }
  }

  /** The IPv4 rule accepts exactly four dot-separated numbers from 0 to 255 without leading zeros. */
  lemma IPv4Spec(s: string)
    ensures IsIPv4(s) <==>
      |SplitOn(s, '.')| == 4 && forall k :: 0 <= k < 4 ==> IsByteText(SplitOn(s, '.')[k])
  {
    DottedOctetsSplit(s, 3);
    var parts := SplitOn(s, '.');
    forall k | 0 <= k < |parts|
      ensures IsOctet(parts[k]) <==> IsByteText(parts[k])
    {
      OctetIsByteText(parts[k]);
    }
  }

  // ---------------------------------------------------------------------
  // Domain: ^([a-zA-Z0-9][a-zA-Z0-9-]*[a-zA-Z0-9]*\.)+[a-zA-Z]{2,}$ searched with `find`

  /**
   * One label of the domain regex: a letter or digit, then letters, digits or
   * hyphens (the trailing `[a-zA-Z0-9]*` adds nothing to what the label accepts).
   */
  predicate IsLabel(l: string) {
    && |l| >= 1
    && IsAsciiAlnum(l[0])
    && forall k :: 1 <= k < |l| ==> IsAsciiAlnum(l[k]) || l[k] == '-'
  }

  /** The final run of at least two ASCII letters. */
  predicate IsTld(t: string) {
    |t| >= 2 && forall k :: 0 <= k < |t| ==> IsAsciiLetter(t[k])
  }

  /** The whole of s is one or more labels each followed by a dot, then the final run of letters. */
  predicate DomainShape(s: string)
    decreases |s|
  {
    match IndexOf(s, '.')
    case None => false
    case Some(p) => IsLabel(s[..p]) && (IsTld(s[p + 1..]) || DomainShape(s[p + 1..]))
  }

  /** The line terminators before which Java's `$` also matches at the end of the input. */
  predicate IsLineTerminator(c: char) {
    c == '\n' || c == '\r' || c == '\U{85}' || c == '\U{2028}' || c == '\U{2029}'
  }

  /**
   * The domain rule's test.  `^` only matches at the start, so `find` succeeds
   * exactly when the pattern matches from the start to the end of the token,
   * or to just before a final line terminator (one character, or "\r\n").
   */
  predicate IsDomain(s: string) {
    || DomainShape(s)
    || (|s| >= 1 && IsLineTerminator(s[|s| - 1]) && DomainShape(s[..|s| - 1]))
    || (|s| >= 2 && s[|s| - 2] == '\r' && s[|s| - 1] == '\n' && DomainShape(s[..|s| - 2]))
  }

  /** At least two pieces, every piece but the last a label, the last a run of letters. */
  ghost predicate DomainParts(parts: seq<string>) {
    && |parts| >= 2
    && (forall k :: 0 <= k < |parts| - 1 ==> IsLabel(parts[k]))
    && IsTld(parts[|parts| - 1])
  }

  lemma DomainPartsCons(x: string, rest: seq<string>)
    requires rest != []
    ensures DomainParts([x] + rest) <==> IsLabel(x) && ((|rest| == 1 && IsTld(rest[0])) || DomainParts(rest))
  {
    var parts := [x] + rest;
    assert parts[|parts| - 1] == rest[|rest| - 1];
    if DomainParts(parts) {
      assert IsLabel(parts[0]);
      forall k | 0 <= k < |rest| - 1
        ensures IsLabel(rest[k])
      {
        assert rest[k] == parts[k + 1];
      }
    }
    if IsLabel(x) && DomainParts(rest) {
      forall k | 0 <= k < |parts| - 1
        ensures IsLabel(parts[k])
      {
        if k > 0 {
          assert parts[k] == rest[k - 1];
        }
      }
    }
  }

  /** Labels then a final run of letters: at least two dot-separated pieces, all labels but the last. */
  lemma {:induction false} DomainShapeSplit(s: string)
    ensures DomainShape(s) <==> DomainParts(SplitOn(s, '.'))
    decreases |s|
  {
    match IndexOf(s, '.')
    case None =>
      assert SplitOn(s, '.') == [s];
    case Some(p) =>
      var tail := s[p + 1..];
      var rest := SplitOn(tail, '.');
      assert SplitOn(s, '.') == [s[..p]] + rest;
      DomainShapeSplit(tail);
      DomainPartsCons(s[..p], rest);
      if |rest| == 1 {
        assert rest == [tail];
        assert !DomainShape(tail);
      } else {
        assert !IsTld(tail) by {
          var q := IndexOf(tail, '.').value;
          assert tail[q] == '.';
        }
      }
  }

  /** Every character the domain shape accepts is an ASCII letter or digit, a hyphen or a dot. */
  lemma {:induction false} DomainShapeAlphabet(s: string)
    requires DomainShape(s)
    ensures forall k :: 0 <= k < |s| ==> IsAsciiAlnum(s[k]) || s[k] == '-' || s[k] == '.'
    decreases |s|
  {
    var p := IndexOf(s, '.').value;
    var tail := s[p + 1..];
    if !IsTld(tail) {
      DomainShapeAlphabet(tail);
    }
    forall k | 0 <= k < |s|
      ensures IsAsciiAlnum(s[k]) || s[k] == '-' || s[k] == '.'
    {
      if k < p {
        assert s[k] == s[..p][k];
      } else if k > p {
        assert s[k] == tail[k - p - 1];
      }
    }
  }

  /** Every character of an IPv4 address is a digit or a dot. */
  lemma {:induction false} DottedOctetsAlphabet(s: string, n: nat)
    requires DottedOctets(s, n)
    ensures forall k :: 0 <= k < |s| ==> IsAsciiDigit(s[k]) || s[k] == '.'
    decreases n
  {
    if n > 0 {
      var p := IndexOf(s, '.').value;
      var tail := s[p + 1..];
      DottedOctetsAlphabet(tail, n - 1);
      forall k | 0 <= k < |s|
        ensures IsAsciiDigit(s[k]) || s[k] == '.'
      {
        if k < p {
          assert s[k] == s[..p][k];
        } else if k > p {
          assert s[k] == tail[k - p - 1];
        }
      }
    }
  }

  /**
   * What the IPv6 expression is known to accept: at least two characters,
   * at least one colon, and only ASCII letters and digits, colons, dots and
   * the `%` before a zone name.  Every alternative of the expression has this
   * form.
   */
  ghost predicate IPv6Alphabet(isIPv6: string -> bool) {
    forall t :: isIPv6(t) ==>
      && |t| >= 2
      && ':' in t
      && forall k :: 0 <= k < |t| ==> IsAsciiAlnum(t[k]) || t[k] == ':' || t[k] == '.' || t[k] == '%'
  }

  /** A token holding an underscore is accepted by none of the three rules. */
  lemma RulesRejectUnderscore(isIPv6: string -> bool, t: string, i: nat)
    requires IPv6Alphabet(isIPv6)
    requires i < |t| && t[i] == '_'
    ensures !IsIPv4(t) && !isIPv6(t) && !IsDomain(t)
  {
    if IsIPv4(t) {
      DottedOctetsAlphabet(t, 3);
    }
    DomainRejectsUnderscore(t, i);
  }

  lemma DomainRejectsUnderscore(t: string, i: nat)
    requires i < |t| && t[i] == '_'
    ensures !IsDomain(t)
  {
    if DomainShape(t) {
      DomainShapeAlphabet(t);
    }
    if |t| >= 1 && DomainShape(t[..|t| - 1]) {
      DomainShapeAlphabet(t[..|t| - 1]);
    }
    if |t| >= 2 && DomainShape(t[..|t| - 2]) {
      DomainShapeAlphabet(t[..|t| - 2]);
    }
  }
}
