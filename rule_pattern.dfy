/** The rule-string pattern ^B([0-8]{0,9})/S([0-8]{0,9})$ that both rule
    parsers (src/state/rules.rs and src/common/rule_parser.rs) match with a
    regular expression, written out as a recogniser, together with the
    digit conversion `d as u32 - 48` and the error value they return. */
module RulePattern {
  import opened Ints
  import opened Wrappers

  /** The one error kind the parsers raise, with its message. */
  datatype ErrorKind = InvalidValue
  datatype Error = Error(kind: ErrorKind, message: string)

  datatype Result<+T> = Ok(value: T) | Err(error: Error)

  /** The `{0,9}` repetition bound of each group. */
  const MAX_GROUP: nat := 9

  predicate IsRuleDigit(c: char) { '0' <= c <= '8' }

  predicate AllRuleDigits(g: string) { forall i :: 0 <= i < |g| ==> IsRuleDigit(g[i]) }

  /** What one capture group `([0-8]{0,9})` can hold. */
  predicate IsRuleGroup(g: string) { |g| <= MAX_GROUP && AllRuleDigits(g) }

  /** The text the pattern matches, given its two groups. */
  function RuleText(birth: string, survival: string): string
  {
    "B" + birth + "/S" + survival
  }

  /** The strings the pattern matches as a whole. */
  ghost predicate Matches(s: string)
  {
    exists birth, survival :: IsRuleGroup(birth) && IsRuleGroup(survival) && s == RuleText(birth, survival)
  }

  /** The length of the run of rule digits that starts at index i: every
      character in the run is a digit 0 to 8 and the one after it is not. */
  function DigitRun(s: string, i: nat): (n: nat)
    requires i <= |s|
    ensures i + n <= |s|
    ensures forall k :: i <= k < i + n ==> IsRuleDigit(s[k])
    ensures i + n < |s| ==> !IsRuleDigit(s[i + n])
    decreases |s| - i
  {
    if i < |s| && IsRuleDigit(s[i]) then 1 + DigitRun(s, i + 1) else 0
  }

  /** The two capture groups when the whole string matches, None otherwise.
      A group cannot run past `/` or the end, so each group is exactly the
      run of digits after `B` and after `/S`. */
  function Captures(s: string): (r: Option<(string, string)>)
    ensures r.Some? ==> IsRuleGroup(r.value.0) && IsRuleGroup(r.value.1)
    ensures r.Some? ==> s == RuleText(r.value.0, r.value.1)
  {
    if |s| == 0 || s[0] != 'B' then None
    else
      var n := DigitRun(s, 1);
      if n > MAX_GROUP || 1 + n + 2 > |s| || s[1 + n] != '/' || s[1 + n + 1] != 'S' then None
      else
        var m := DigitRun(s, 1 + n + 2);
        if 1 + n + 2 + m != |s| || m > MAX_GROUP then None
        else
          assert s == RuleText(s[1..1 + n], s[1 + n + 2..]);
          Some((s[1..1 + n], s[1 + n + 2..]))
  }

  /** A run of digits followed by a non-digit or the end has exactly its own
      length as its digit run. */
  lemma DigitRunOf(s: string, i: nat, n: nat)
    requires i + n <= |s|
    requires forall k :: i <= k < i + n ==> IsRuleDigit(s[k])
    requires i + n < |s| ==> !IsRuleDigit(s[i + n])
    ensures DigitRun(s, i) == n
  {
  }

  /** Every string of the pattern's form is recognised, with its own groups. */
  lemma CapturesRuleText(birth: string, survival: string)
    requires IsRuleGroup(birth) && IsRuleGroup(survival)
    ensures Captures(RuleText(birth, survival)) == Some((birth, survival))
  {
    var s := RuleText(birth, survival);
    var n := |birth|;
    assert s[1..1 + n] == birth;
    assert s[1 + n] == '/' && s[1 + n + 1] == 'S';
    DigitRunOf(s, 1, n);
    assert s[1 + n + 2..] == survival;
    DigitRunOf(s, 1 + n + 2, |survival|);
  }

  /** The recogniser accepts exactly the strings the pattern matches. */
  lemma CapturesIffMatches(s: string)
    ensures Captures(s).Some? <==> Matches(s)
  {
    if Matches(s) {
      var birth, survival :| IsRuleGroup(birth) && IsRuleGroup(survival) && s == RuleText(birth, survival);
      CapturesRuleText(birth, survival);
    }
  }

  /** `d as u32 - 48`: the value of one digit character. */
  function DigitValue(c: char): (v: u32)
    requires IsRuleDigit(c)
    ensures v <= 8 && v as int + 48 == c as int
  {
    c as int - 48
  }

  /** The values of a group's digits, in order. */
  function DigitValues(g: string): (r: seq<u32>)
    requires AllRuleDigits(g)
    ensures |r| == |g|
    ensures forall i :: 0 <= i < |r| ==> r[i] <= 8
  {
    if g == [] then []
    else DigitValues(g[..|g| - 1]) + [DigitValue(g[|g| - 1])]
  }

  /** Reading one more digit appends its value. */
  lemma DigitValuesExtend(g: string, i: nat)
    requires AllRuleDigits(g) && i < |g|
    ensures AllRuleDigits(g[..i]) && AllRuleDigits(g[..i + 1])
    ensures DigitValues(g[..i + 1]) == DigitValues(g[..i]) + [g[i] as int - 48]
  {
    assert g[..i + 1][..i] == g[..i];
  }

  /** The i-th value is the value of the i-th digit: order and duplicates are kept. */
  lemma {:induction false} DigitValuesAt(g: string, i: int)
    requires AllRuleDigits(g) && 0 <= i < |g|
    ensures DigitValues(g)[i] == DigitValue(g[i])
    decreases |g|
  {
    if i < |g| - 1 {
      DigitValuesAt(g[..|g| - 1], i);
    }
  }

  /** A rule list the pattern can express: at most nine counts of 0 to 8. */
  predicate IsRuleList(v: seq<u32>) { |v| <= MAX_GROUP && forall i :: 0 <= i < |v| ==> v[i] <= 8 }

  /** The digits that write a list of counts 0 to 8. */
  function RuleDigits(v: seq<u32>): (g: string)
    requires forall i :: 0 <= i < |v| ==> v[i] <= 8
    ensures |g| == |v| && AllRuleDigits(g)
  {
    if v == [] then []
    else RuleDigits(v[..|v| - 1]) + [(v[|v| - 1] + 48) as char]
  }

  /** Writing a group's values back as digits gives the group. */
  lemma {:induction false} RuleDigitsOfValues(g: string)
    requires AllRuleDigits(g)
    ensures RuleDigits(DigitValues(g)) == g
    decreases |g|
  {
    if g != [] {
      var init := g[..|g| - 1];
      RuleDigitsOfValues(init);
      assert DigitValues(g)[..|g| - 1] == DigitValues(init);
      assert g == init + [g[|g| - 1]];
    }
  }

  /** Reading the digits of a list of counts gives the list. */
  lemma {:induction false} ValuesOfRuleDigits(v: seq<u32>)
    requires forall i :: 0 <= i < |v| ==> v[i] <= 8
    ensures DigitValues(RuleDigits(v)) == v
    decreases |v|
  {
    if v != [] {
      var init := v[..|v| - 1];
      ValuesOfRuleDigits(init);
      var g := RuleDigits(v);
      assert g[..|g| - 1] == RuleDigits(init);
      assert DigitValue(g[|g| - 1]) == v[|v| - 1];
      assert DigitValues(g) == v by {
        assert DigitValues(g) == DigitValues(g[..|g| - 1]) + [DigitValue(g[|g| - 1])];
        assert v == init + [v[|v| - 1]];
      }
    }
  }

  /** The rule string of a birth list and a survival list. */
  function FormatRules(birth: seq<u32>, survival: seq<u32>): string
    requires IsRuleList(birth) && IsRuleList(survival)
  {
    RuleText(RuleDigits(birth), RuleDigits(survival))
  }

  /** Round trip one way: the rule string of two rule lists is matched and
      its groups read back as the same lists. */
  lemma ParseFormatted(birth: seq<u32>, survival: seq<u32>)
    requires IsRuleList(birth) && IsRuleList(survival)
    ensures var c := Captures(FormatRules(birth, survival));
      c.Some? && DigitValues(c.value.0) == birth && DigitValues(c.value.1) == survival
  {
    CapturesRuleText(RuleDigits(birth), RuleDigits(survival));
    ValuesOfRuleDigits(birth);
    ValuesOfRuleDigits(survival);
  }

  /** Round trip the other way: the lists read from a matching string are
      rule lists and write that same string. */
  lemma FormatParsed(s: string)
    requires Captures(s).Some?
    ensures var c := Captures(s);
      IsRuleList(DigitValues(c.value.0)) && IsRuleList(DigitValues(c.value.1))
      && FormatRules(DigitValues(c.value.0), DigitValues(c.value.1)) == s
  {
    var c := Captures(s);
    RuleDigitsOfValues(c.value.0);
    RuleDigitsOfValues(c.value.1);
  }
}
