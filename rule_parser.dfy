/** src/common/rule_parser.rs: `parse_rules`, the second rule-string parser,
    returning the birth and survival counts as a pair. */
module CommonRuleParser {
  import opened Ints
  import opened RulePattern
  import StateRules

  /** The message of the error returned for a string that does not match. */
  const SOME_FAILURE_CASE: string := "Some failure case"

  /** `parse_rules`: on a match, pushes the value of each birth digit and then
      of each survival digit; otherwise fails with `InvalidValue`. */
  method ParseRules(rules: string) returns (r: Result<(seq<u32>, seq<u32>)>)
    ensures Captures(rules).None? ==> r == Err(Error(InvalidValue, SOME_FAILURE_CASE))
    ensures Captures(rules).Some? ==>
      r == Ok((DigitValues(Captures(rules).value.0), DigitValues(Captures(rules).value.1)))
  {
    var birthRule: seq<u32> := [];
    var survivalRule: seq<u32> := [];
    var err := Error(InvalidValue, SOME_FAILURE_CASE);
    var captures := Captures(rules);
    if captures.None? {
      return Err(err);
    }
    var (birthDigits, survivalDigits) := captures.value;
    for i := 0 to |birthDigits|
      invariant birthRule == DigitValues(birthDigits[..i])
    {
      DigitValuesExtend(birthDigits, i);
      birthRule := birthRule + [birthDigits[i] as int - 48];
    }
    for i := 0 to |survivalDigits|
      invariant survivalRule == DigitValues(survivalDigits[..i])
    {
      DigitValuesExtend(survivalDigits, i);
      survivalRule := survivalRule + [survivalDigits[i] as int - 48];
    }
    assert birthDigits[..|birthDigits|] == birthDigits;
    assert survivalDigits[..|survivalDigits|] == survivalDigits;
    return Ok((birthRule, survivalRule));
  }

  /** Acceptance is exactly a whole-string match of the pattern; accepted
      lists are rule lists that write the input back. */
  method ParseRulesAccepts(rules: string) returns (r: Result<(seq<u32>, seq<u32>)>)
    ensures r.Ok? <==> Matches(rules)
    ensures r.Err? ==> r.error.kind == InvalidValue
    ensures r.Ok? ==> IsRuleList(r.value.0) && IsRuleList(r.value.1)
    ensures r.Ok? ==> FormatRules(r.value.0, r.value.1) == rules
  {
    r := ParseRules(rules);
    CapturesIffMatches(rules);
    if r.Ok? {
      FormatParsed(rules);
    }
  }

  /** `parse_rules` and `Rules::parse` accept the same strings and return the
      same lists; only the error message differs. */
  method AgreesWithRulesParse(rules: string) returns (pair: Result<(seq<u32>, seq<u32>)>, record: Result<StateRules.Rules>)
    ensures pair.Ok? <==> record.Ok?
    ensures pair.Ok? ==> pair.value.0 == record.value.birth && pair.value.1 == record.value.survival
    ensures pair.Err? ==> pair.error.kind == record.error.kind == InvalidValue
  {
    pair := ParseRules(rules);
    record := StateRules.Parse(rules);
  }

  /** "B3/S23" gives ([3], [2, 3]). */
  method ParseDefaultLifeRule() returns (r: Result<(seq<u32>, seq<u32>)>)
    ensures r == Ok(([3], [2, 3]))
  {
    CapturesRuleText("3", "23");
    assert RuleText("3", "23") == "B3/S23";
    assert "3"[..0] == "" && "2"[..0] == "" && "23"[..1] == "2";
    assert DigitValues("3") == [3] && DigitValues("2") == [2];
    assert DigitValues("23") == [2, 3];
    r := ParseRules("B3/S23");
  }

  /** "B012345678/S012345678" gives every count 0 to 8 in both lists. */
  method ParseMaximalRule() returns (r: Result<(seq<u32>, seq<u32>)>)
    ensures r == Ok(([0, 1, 2, 3, 4, 5, 6, 7, 8], [0, 1, 2, 3, 4, 5, 6, 7, 8]))
  {
    StateRules.AllCountsGroup();
    CapturesRuleText("012345678", "012345678");
    assert RuleText("012345678", "012345678") == "B012345678/S012345678";
    r := ParseRules("B012345678/S012345678");
  }

  /** "nonsense" fails with `InvalidValue`. */
  method ParseNonsense() returns (r: Result<(seq<u32>, seq<u32>)>)
    ensures r.Err? && r.error.kind == InvalidValue
  {
    r := ParseRules("nonsense");
  }
}
