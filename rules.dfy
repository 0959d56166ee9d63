/** src/state/rules.rs: `Rules::parse` reads a rule string such as
    "B3/S23" into the birth and survival counts. */
module StateRules {
  import opened Ints
  import opened RulePattern

  datatype Rules = Rules(birth: seq<u32>, survival: seq<u32>)

  /** The message of the error returned for a string that does not match. */
  const INVALID_RULES_PATTERN: string := "invalid rules pattern"

  /** `parse`: on a match, pushes the value of each birth digit and then of
      each survival digit; otherwise fails with `InvalidValue`. */
  method Parse(rules: string) returns (r: Result<Rules>)
    ensures Captures(rules).None? ==> r == Err(Error(InvalidValue, INVALID_RULES_PATTERN))
    ensures Captures(rules).Some? ==>
      r == Ok(Rules(DigitValues(Captures(rules).value.0), DigitValues(Captures(rules).value.1)))
  {
    var birth: seq<u32> := [];
    var survival: seq<u32> := [];
    var captures := Captures(rules);
    if captures.None? {
      return Err(Error(InvalidValue, INVALID_RULES_PATTERN));
    }
    var (birthDigits, survivalDigits) := captures.value;
    for i := 0 to |birthDigits|
      invariant birth == DigitValues(birthDigits[..i])
    {
      DigitValuesExtend(birthDigits, i);
      birth := birth + [birthDigits[i] as int - 48];
    }
    for i := 0 to |survivalDigits|
      invariant survival == DigitValues(survivalDigits[..i])
    {
      DigitValuesExtend(survivalDigits, i);
      survival := survival + [survivalDigits[i] as int - 48];
    }
    assert birthDigits[..|birthDigits|] == birthDigits;
    assert survivalDigits[..|survivalDigits|] == survivalDigits;
    return Ok(Rules(birth, survival));
  }

  /** Parsing succeeds exactly on the strings the pattern matches; then both
      lists are rule lists (counts 0 to 8, at most nine of them) and they
      write the parsed string back. */
  method ParseAccepts(rules: string) returns (r: Result<Rules>)
    ensures r.Ok? <==> Matches(rules)
    ensures r.Err? ==> r.error.kind == InvalidValue
    ensures r.Ok? ==> IsRuleList(r.value.birth) && IsRuleList(r.value.survival)
    ensures r.Ok? ==> FormatRules(r.value.birth, r.value.survival) == rules
  {
    r := Parse(rules);
    CapturesIffMatches(rules);
    if r.Ok? {
      FormatParsed(rules);
    }
  }

  /** Any two rule lists survive being written as a rule string and parsed. */
  method ParseFormattedRules(rules: Rules) returns (r: Result<Rules>)
    requires IsRuleList(rules.birth) && IsRuleList(rules.survival)
    ensures r == Ok(rules)
  {
    ParseFormatted(rules.birth, rules.survival);
    r := Parse(FormatRules(rules.birth, rules.survival));
  }

  /** "B3/S23", Conway's rules, gives birth [3] and survival [2, 3]. */
  method ParseDefaultLifeRule() returns (r: Result<Rules>)
    ensures r == Ok(Rules([3], [2, 3]))
  {
    CapturesRuleText("3", "23");
    assert RuleText("3", "23") == "B3/S23";
    assert "3"[..0] == "" && "2"[..0] == "" && "23"[..1] == "2";
    assert DigitValues("3") == [3] && DigitValues("2") == [2];
    assert DigitValues("23") == [2, 3];
    r := Parse("B3/S23");
  }

  /** The group "012345678" holds every count 0 to 8 once, in order. */
  lemma AllCountsGroup()
    ensures IsRuleGroup("012345678")
    ensures DigitValues("012345678") == [0, 1, 2, 3, 4, 5, 6, 7, 8]
  {
    forall i | 0 <= i < 9
      ensures DigitValues("012345678")[i] == i
    {
      DigitValuesAt("012345678", i);
    }
  }

  /** "B012345678/S012345678" gives every count 0 to 8 in both lists. */
  method ParseMaximalRule() returns (r: Result<Rules>)
    ensures r == Ok(Rules([0, 1, 2, 3, 4, 5, 6, 7, 8], [0, 1, 2, 3, 4, 5, 6, 7, 8]))
  {
    AllCountsGroup();
    CapturesRuleText("012345678", "012345678");
    assert RuleText("012345678", "012345678") == "B012345678/S012345678";
    r := Parse("B012345678/S012345678");
  }

  /** "B/S" has two empty groups and gives two empty lists. */
  method ParseEmptyRule() returns (r: Result<Rules>)
    ensures r == Ok(Rules([], []))
  {
    CapturesRuleText("", "");
    assert RuleText("", "") == "B/S";
    r := Parse("B/S");
  }

  /** "nonsense" does not match and fails with `InvalidValue`. */
  method ParseNonsense() returns (r: Result<Rules>)
    ensures r.Err? && r.error.kind == InvalidValue
  {
    r := Parse("nonsense");
  }
}
