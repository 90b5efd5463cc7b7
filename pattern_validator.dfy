/**
 * Validation of user-supplied regular expressions: a pattern must compile,
 * and it must not look prone to catastrophic backtracking (a group holding
 * a quantifier or an alternation, itself quantified).
 */
module PatternValidation {
  import opened Options

  /** A compiled pattern, known by the source text it was compiled from. */
  datatype Pattern = Pattern(source: string)

  /**
   * The outcome of a validation. As a record anyone may build any triple;
   * the two factories build exactly the well-formed ones.
   */
  datatype ValidationResult = ValidationResult(valid: bool, pattern: Option<Pattern>, error: Option<string>)
  {
    /** Valid exactly when a pattern is present, and exactly when no error is. */
    predicate WellFormed() {
      (valid <==> pattern.Some?) && (valid <==> error.None?)
    }

    /** A valid result holding the compiled pattern. */
    static function Success(p: Pattern): (r: ValidationResult)
      ensures r.WellFormed() && r.valid
      ensures r.GetPattern() == Some(p) && r.error.None?
    {
      ValidationResult(true, Some(p), None)
    }

    /** An invalid result carrying the message unchanged. */
    static function Failure(msg: string): (r: ValidationResult)
      ensures r.WellFormed() && !r.valid
      ensures r.error == Some(msg) && r.GetPattern().None?
    {
      ValidationResult(false, None, Some(msg))
    }

    /** The pattern, if any: for a well-formed result, present exactly when it is valid. */
    function GetPattern(): (r: Option<Pattern>)
      ensures WellFormed() ==> (r.Some? <==> valid)
      ensures r.Some? ==> Some(r.value) == pattern
      ensures r.None? ==> pattern.None?
    {
      pattern
    }
  }

  /** The well-formed results are exactly those built by `Success` and `Failure`. */
  lemma WellFormedIsFactoryBuilt(r: ValidationResult)
    ensures r.WellFormed() <==>
      (exists p :: r == ValidationResult.Success(p)) || (exists m :: r == ValidationResult.Failure(m))
  {
    if r.WellFormed() {
      if r.valid {
        assert r == ValidationResult.Success(r.pattern.value);
      } else {
        assert r == ValidationResult.Failure(r.error.value);
      }
    }
  }

  // ---------------------------------------------------------------------
  // The backtracking heuristic: "\([^)]*[+*][^)]*\)[+*]|\([^)]*\|[^)]*\)[+*]"

  predicate IsQuantifier(c: char) {
    c == '+' || c == '*'
  }

  /**
   * An opening parenthesis at `i` and the first closing parenthesis after it
   * at `j`, followed by `+` or `*`.
   */
  ghost predicate QuantifiedGroup(s: string, i: nat, j: nat) {
    && i < j
    && j + 1 < |s|
    && s[i] == '('
    && s[j] == ')'
    && IsQuantifier(s[j + 1])
    && forall k :: i < k < j ==> s[k] != ')'
  }

  /** First alternative of the heuristic: a quantified group with `+` or `*` inside. */
  ghost predicate NestedQuantifier(s: string) {
    exists i: nat, j: nat :: QuantifiedGroup(s, i, j) && exists k :: i < k < j && IsQuantifier(s[k])
  }

  /** Second alternative of the heuristic: a quantified group with `|` inside. */
  ghost predicate QuantifiedAlternation(s: string) {
    exists i: nat, j: nat :: QuantifiedGroup(s, i, j) && exists k :: i < k < j && s[k] == '|'
  }

  /** The position of the first `)` at or after `from`. */
  function CloseFrom(s: string, from: nat): (r: Option<nat>)
    ensures r.Some? ==> from <= r.value < |s| && s[r.value] == ')'
    ensures r.Some? ==> forall k :: from <= k < r.value ==> s[k] != ')'
    ensures r.None? ==> forall k :: from <= k < |s| ==> s[k] != ')'
    decreases |s| - from
  {
    if from >= |s| then None
    else if s[from] == ')' then Some(from)
    else CloseFrom(s, from + 1)
  }

  /** Whether a character that makes a group risky (`+`, `*` or `|`) lies in `s[lo..hi]`. */
  function RiskyIn(s: string, lo: nat, hi: nat): (r: bool)
    requires hi <= |s|
    ensures r <==> exists k :: lo <= k < hi && (IsQuantifier(s[k]) || s[k] == '|')
    decreases hi - lo
  {
    if lo >= hi then false
    else IsQuantifier(s[lo]) || s[lo] == '|' || RiskyIn(s, lo + 1, hi)
  }

  /** Whether the heuristic matches with its opening parenthesis at `i`. */
  predicate FlaggedAt(s: string, i: nat)
    requires i < |s|
  {
    && s[i] == '('
    && match CloseFrom(s, i + 1)
       case None => false
       case Some(j) => j + 1 < |s| && IsQuantifier(s[j + 1]) && RiskyIn(s, i + 1, j)
  }

  /** Whether the heuristic matches with its opening parenthesis at or after `from`. */
  function DangerousFrom(s: string, from: nat): (r: bool)
    ensures r <==> exists i :: from <= i < |s| && FlaggedAt(s, i)
    decreases |s| - from
  {
    if from >= |s| then false
    else FlaggedAt(s, from) || DangerousFrom(s, from + 1)
  }

  /**
   * The heuristic holds exactly when some quantified group holds a
   * quantifier or an alternation.
   */
  function IsPotentiallyDangerous(regex: string): (r: bool)
    ensures r <==> NestedQuantifier(regex) || QuantifiedAlternation(regex)
  {
    var r := DangerousFrom(regex, 0);
    DangerousSpec(regex);
    r
  }

  lemma DangerousSpec(s: string)
    ensures DangerousFrom(s, 0) <==> NestedQuantifier(s) || QuantifiedAlternation(s)
  {
    if DangerousFrom(s, 0) {
      var i :| 0 <= i < |s| && FlaggedAt(s, i);
      var j := CloseFrom(s, i + 1).value;
      assert QuantifiedGroup(s, i, j);
      var k :| i + 1 <= k < j && (IsQuantifier(s[k]) || s[k] == '|');
    }
    if NestedQuantifier(s) {
      var i: nat, j: nat :| QuantifiedGroup(s, i, j) && exists k :: i < k < j && IsQuantifier(s[k]);
      GroupIsFlagged(s, i, j);
    }
    if QuantifiedAlternation(s) {
      var i: nat, j: nat :| QuantifiedGroup(s, i, j) && exists k :: i < k < j && s[k] == '|';
      GroupIsFlagged(s, i, j);
    }
  }

  /** A quantified group with a risky character inside is found by the scan at its parenthesis. */
  lemma GroupIsFlagged(s: string, i: nat, j: nat)
    requires QuantifiedGroup(s, i, j)
    requires exists k :: i < k < j && (IsQuantifier(s[k]) || s[k] == '|')
    ensures FlaggedAt(s, i)
  {
  }

  // ---------------------------------------------------------------------
  // Validation

  /** Prefix of the message for a pattern that does not compile. */
  const InvalidPrefix: string := "無効な正規表現です: "

  /** Message for a pattern that compiles but trips the heuristic. */
  const DangerMessage: string := "この正規表現はパフォーマンス上の問題を引き起こす可能性があります"

  /**
   * Validates `regex`. `compileError` stands for the regex compiler: it gives
   * the description of the syntax error, or `None` when the pattern compiles.
   * The syntax check comes first, then the heuristic.
   */
  function Validate(compileError: string -> Option<string>, regex: string): (r: ValidationResult)
    ensures r.WellFormed()
    ensures r.valid <==> compileError(regex).None? && !NestedQuantifier(regex) && !QuantifiedAlternation(regex)
    ensures r.valid ==> r.GetPattern() == Some(Pattern(regex))
    ensures compileError(regex).Some? ==> r.error == Some(InvalidPrefix + compileError(regex).value)
    ensures compileError(regex).None? && (NestedQuantifier(regex) || QuantifiedAlternation(regex)) ==>
      r.error == Some(DangerMessage)
  {
    match compileError(regex)
    case Some(description) => ValidationResult.Failure(InvalidPrefix + description)
    case None =>
      if IsPotentiallyDangerous(regex) then ValidationResult.Failure(DangerMessage)
      else ValidationResult.Success(Pattern(regex))
  }

  /** The two failure messages are told apart by the prefix: it marks exactly the syntax errors. */
  lemma SyntaxErrorIffPrefix(compileError: string -> Option<string>, regex: string)
    ensures var r := Validate(compileError, regex);
      compileError(regex).Some? <==>
        (r.error.Some? && |InvalidPrefix| <= |r.error.value| && r.error.value[..|InvalidPrefix|] == InvalidPrefix)
  {
    var r := Validate(compileError, regex);
    if compileError(regex).Some? {
      assert (InvalidPrefix + compileError(regex).value)[..|InvalidPrefix|] == InvalidPrefix;
    } else if r.error.Some? && |InvalidPrefix| <= |r.error.value| {
      assert r.error.value[0] != InvalidPrefix[0];
    }
  }

  // ---------------------------------------------------------------------
  // The documented patterns

  /** Groups holding a quantifier or an alternation, themselves quantified, are flagged. */
  lemma DangerousExamples(regex: string)
    requires || regex == "(a+)+" || regex == "(a*)*" || regex == "(a+)*" || regex == "(a*)+"
             || regex == "(x+)+b" || regex == "(a|b)+" || regex == "(a|b)*" || regex == "(foo|bar)*"
    ensures IsPotentiallyDangerous(regex)
  {
    if regex == "(foo|bar)*" {
      RiskyGroupDangerous(regex, 0, 8, 4);
    } else if regex == "(a|b)+" || regex == "(a|b)*" {
      RiskyGroupDangerous(regex, 0, 4, 2);
    } else {
      RiskyGroupDangerous(regex, 0, 3, 2);
    }
  }

  /** A quantified group from `i` to `j` with a risky character at `k` makes the pattern flagged. */
  lemma RiskyGroupDangerous(s: string, i: nat, j: nat, k: nat)
    requires QuantifiedGroup(s, i, j) && i < k < j && (IsQuantifier(s[k]) || s[k] == '|')
    ensures IsPotentiallyDangerous(s)
  {
    if IsQuantifier(s[k]) {
      assert NestedQuantifier(s);
    } else {
      assert QuantifiedAlternation(s);
    }
  }

  /** A pattern where no `)` is followed by `+` or `*` is never flagged. */
  lemma UnquantifiedGroupsSafe(s: string)
    requires forall k :: 0 <= k < |s| - 1 && s[k] == ')' ==> !IsQuantifier(s[k + 1])
    ensures !IsPotentiallyDangerous(s)
  {
  }

  /** Patterns without a quantified risky group are not flagged. */
  lemma SafeExamples(regex: string)
    requires || regex == "^[a-z]+$" || regex == "[0-9]{3}-[0-9]{4}" || regex == "hello"
             || regex == "\\d+" || regex == "a+b+c+" || regex == "^(foo|bar)$"
             || regex == "[A-Za-z0-9_]+" || regex == "\\w+@\\w+\\.\\w+" || regex == "(?:abc)"
             || regex == "a{1,10}"
    ensures !IsPotentiallyDangerous(regex)
  {
    UnquantifiedGroupsSafe(regex);
  }

  /** A pattern whose only group holds no `+`, `*` or `|` is never flagged, quantified or not. */
  lemma SingleGroupSafe(s: string, j: nat)
    requires 0 < j < |s| && s[0] == '(' && s[j] == ')'
    requires forall k :: 0 < k < |s| ==> s[k] != '('
    requires forall k :: 0 < k < j ==> s[k] != ')' && !IsQuantifier(s[k]) && s[k] != '|'
    ensures !IsPotentiallyDangerous(s)
  {
    assert CloseFrom(s, 1) == Some(j);
    assert !RiskyIn(s, 1, j);
    assert !FlaggedAt(s, 0);
  }

  /** The patterns that compile and pass the heuristic are accepted, with their pattern. */
  lemma ValidExamples(compileError: string -> Option<string>, regex: string)
    requires compileError(regex).None?
    requires || regex == "^[a-z]+$" || regex == "[0-9]{3}-[0-9]{4}" || regex == "hello"
             || regex == "\\d+" || regex == "a*b+c?" || regex == "^(foo|bar)$"
             || regex == "[A-Za-z0-9_]+" || regex == "\\w+@\\w+\\.\\w+" || regex == "(?:abc)+"
             || regex == "\\p{L}+"
    ensures Validate(compileError, regex).valid
    ensures Validate(compileError, regex).error.None?
    ensures Validate(compileError, regex).GetPattern() == Some(Pattern(regex))
  {
    if regex == "(?:abc)+" {
      SingleGroupSafe(regex, 6);
    } else {
      UnquantifiedGroupsSafe(regex);
    }
  }

  /** The patterns that compile but trip the heuristic are refused with the performance message. */
  lemma RedosExamples(compileError: string -> Option<string>, regex: string)
    requires compileError(regex).None?
    requires || regex == "(a+)+" || regex == "(a*)*" || regex == "(a+)*" || regex == "(a*)+"
             || regex == "(x+)+b" || regex == "(a|b)+" || regex == "(a|b)*" || regex == "(x|y)+z"
    ensures !Validate(compileError, regex).valid
    ensures Validate(compileError, regex).GetPattern().None?
    ensures Validate(compileError, regex).error == Some(DangerMessage)
  {
    if regex == "(a|b)+" || regex == "(a|b)*" || regex == "(x|y)+z" {
      RiskyGroupDangerous(regex, 0, 4, 2);
    } else {
      RiskyGroupDangerous(regex, 0, 3, 2);
    }
  }
}
