/**
 * The rule pass: the table's rules applied one after another, each to the
 * previous rule's output, with a flag that records whether any rule's
 * pattern was found.
 */
module RulePass {
  import opened Registry
  import opened Rewrite

  /** The text after some rules, and whether any of them found its pattern. */
  datatype Pass = Pass(text: string, changed: bool)

  /**
   * One rule of the pass: when `re.search` finds the rule's pattern, the text
   * is replaced by the `re.sub` result and the flag is raised; otherwise
   * nothing changes.
   */
  function Step(p: Pass, r: Rule): Pass {
    if NoMatch(p.text, r.value) then p
    else Pass(Substitute(p.text, r.value, r.replacement), true)
  }

  /** The rules applied in order to s, starting with the flag lowered. */
  function ApplyRules(s: string, rules: seq<Rule>): Pass
    decreases |rules|
  {
    if rules == [] then Pass(s, false)
    else Step(ApplyRules(s, rules[..|rules| - 1]), rules[|rules| - 1])
  }

  /** Every rule's pattern has been cleared out of the output of the pass. */
  predicate Cleared(s: string, rules: seq<Rule>) {
    forall k :: 0 <= k < |rules| ==> NoMatch(s, rules[k].value)
  }

  /** A prefix of a well-formed table is well-formed. */
  lemma WellFormedPrefix(rules: seq<Rule>, j: nat)
    requires WellFormed(rules) && j <= |rules|
    ensures WellFormed(rules[..j])
  {
    assert forall k :: 0 <= k < j ==> rules[..j][k] == rules[k];
  }

  /**
   * All occurrences are rewritten: after the pass, no rule's pattern matches
   * anywhere in the text, because each rule clears its own pattern and no
   * replacement creates a match of an earlier one.
   */
  lemma {:induction false} ApplyRulesClears(s: string, rules: seq<Rule>)
    requires WellFormed(rules)
    ensures Cleared(ApplyRules(s, rules).text, rules)
    decreases |rules|
  {
    if rules != [] {
      var init := rules[..|rules| - 1];
      var r := rules[|rules| - 1];
      WellFormedPrefix(rules, |rules| - 1);
      ApplyRulesClears(s, init);
      var p := ApplyRules(s, init);
      var out := ApplyRules(s, rules).text;
      forall k | 0 <= k < |rules| ensures NoMatch(out, rules[k].value) {
        if k < |rules| - 1 {
          assert rules[k] == init[k];
        }
        if !NoMatch(p.text, r.value) {
          SubstituteClears(p.text, r.value, r.replacement, rules[k].value);
        }
      }
    }
  }

  /** With the flag still lowered, the pass has left the text as it was. */
  lemma {:induction false} ApplyRulesUnchanged(s: string, rules: seq<Rule>)
    ensures !ApplyRules(s, rules).changed ==> ApplyRules(s, rules).text == s
    decreases |rules|
  {
    if rules != [] {
      ApplyRulesUnchanged(s, rules[..|rules| - 1]);
    }
  }

  /** Some rule's pattern matches somewhere in s. */
  predicate AnyMatch(s: string, rules: seq<Rule>) {
    exists k :: 0 <= k < |rules| && !NoMatch(s, rules[k].value)
  }

  /** Some rule's pattern matches exactly when the last rule's or an earlier one's does. */
  lemma AnyMatchLast(s: string, rules: seq<Rule>)
    requires rules != []
    ensures AnyMatch(s, rules) <==> AnyMatch(s, rules[..|rules| - 1]) || !NoMatch(s, rules[|rules| - 1].value)
  {
    var init := rules[..|rules| - 1];
    if exists k :: 0 <= k < |init| && !NoMatch(s, init[k].value) {
      var k :| 0 <= k < |init| && !NoMatch(s, init[k].value);
      assert rules[k] == init[k];
    }
    if exists k :: 0 <= k < |rules| && !NoMatch(s, rules[k].value) {
      var k :| 0 <= k < |rules| && !NoMatch(s, rules[k].value);
      if k < |init| {
        assert rules[k] == init[k];
      }
    }
  }

  /** The flag is raised exactly when some rule's pattern matches the original text. */
  lemma {:induction false} ApplyRulesFlag(s: string, rules: seq<Rule>)
    ensures ApplyRules(s, rules).changed <==> exists k :: 0 <= k < |rules| && !NoMatch(s, rules[k].value)
    decreases |rules|
  {
    if rules != [] {
      var init := rules[..|rules| - 1];
      var r := rules[|rules| - 1];
      ApplyRulesFlag(s, init);
      ApplyRulesUnchanged(s, init);
      var p := ApplyRules(s, init);
      assert ApplyRules(s, rules).changed <==> p.changed || !NoMatch(p.text, r.value);
      assert ApplyRules(s, rules).changed <==> p.changed || !NoMatch(s, r.value);
      AnyMatchLast(s, rules);
    }
  }

  /** The flag is raised exactly when the pass changed the text. */
  lemma ApplyRulesChanged(s: string, rules: seq<Rule>)
    requires WellFormed(rules)
    ensures ApplyRules(s, rules).changed <==> ApplyRules(s, rules).text != s
  {
    ApplyRulesUnchanged(s, rules);
    ApplyRulesFlag(s, rules);
    ApplyRulesClears(s, rules);
  }

  /** A text that no rule's pattern matches comes through the pass unchanged and unflagged. */
  lemma ApplyRulesCleared(s: string, rules: seq<Rule>)
    requires Cleared(s, rules)
    ensures ApplyRules(s, rules) == Pass(s, false)
  {
    ApplyRulesFlag(s, rules);
    ApplyRulesUnchanged(s, rules);
  }

  /** Running the pass on its own output changes nothing and raises no flag. */
  lemma ApplyRulesIdempotent(s: string, rules: seq<Rule>)
    requires WellFormed(rules)
    ensures ApplyRules(ApplyRules(s, rules).text, rules) == Pass(ApplyRules(s, rules).text, false)
  {
    ApplyRulesClears(s, rules);
    ApplyRulesCleared(ApplyRules(s, rules).text, rules);
  }

  /** A replacement holds no match of any numeral. */
  lemma ReplacementClear(rep: string, u: string)
    requires SafeReplacement(rep) && IsNumeral(u)
    ensures NoMatch(rep, u)
  {
    MatchesPrefix([], u);
    AfterReplacement(rep, [], u);
    assert rep + [] == rep;
  }

  /** Text after which no match of any table literal can be under way. */
  predicate BoundaryForAll(a: string, rules: seq<Rule>) {
    forall k :: 0 <= k < |rules| ==> Boundary(a, rules[k].value)
  }

  /**
   * The prefix of the pass over a match-free text followed by a single call:
   * untouched before the call's rule, the call replaced from then on.
   */
  lemma {:induction false} CallAfterPrefix(a: string, rules: seq<Rule>, k: nat, needle: string, j: nat)
    requires WellFormed(rules) && DistinctValues(rules) && k < |rules| && j <= |rules|
    requires Cleared(a, rules) && BoundaryForAll(a, rules)
    requires needle == IntNeedle(rules[k].value) || needle == FracNeedle(rules[k].value)
    ensures ApplyRules(a + needle, rules[..j]) ==
      if j <= k then Pass(a + needle, false) else Pass(a + rules[k].replacement, true)
    decreases j
  {
    if j > 0 {
      var r := rules[j - 1];
      assert rules[..j][..j - 1] == rules[..j - 1];
      CallAfterPrefix(a, rules, k, needle, j - 1);
      assert NoMatch(a, r.value) && Boundary(a, r.value);
      if j - 1 < k {
        OtherNeedle(rules[k].value, r.value, needle);
        NoMatchJoin(a, needle, r.value);
      } else if j - 1 == k {
        MatchesPrefix(needle, r.value);
        assert (a + needle)[|a|..] == needle;
        SubstituteAppend(a, needle, r.value, r.replacement);
        SubstituteNoMatch(a, r.value, r.replacement);
        SubstituteCall(r.value, r.replacement, needle);
      } else {
        ReplacementClear(rules[k].replacement, r.value);
        NoMatchJoin(a, rules[k].replacement, r.value);
      }
    }
  }

  /**
   * A match-free text followed by one call with a table literal, bare or with
   * `.0`, comes out of the pass with the call replaced, flagged.
   */
  lemma CallAfter(a: string, rules: seq<Rule>, k: nat, needle: string)
    requires WellFormed(rules) && DistinctValues(rules) && k < |rules|
    requires Cleared(a, rules) && BoundaryForAll(a, rules)
    requires needle == IntNeedle(rules[k].value) || needle == FracNeedle(rules[k].value)
    ensures ApplyRules(a + needle, rules) == Pass(a + rules[k].replacement, true)
  {
    CallAfterPrefix(a, rules, k, needle, |rules|);
    assert rules[..|rules|] == rules;
  }

  /** The text after one rule is the `re.sub` result, whether or not `re.search` found the pattern. */
  lemma StepText(p: Pass, r: Rule)
    ensures Step(p, r).text == Substitute(p.text, r.value, r.replacement)
  {
    if NoMatch(p.text, r.value) {
      SubstituteNoMatch(p.text, r.value, r.replacement);
    }
  }

  /** The text after the first j rules is the `re.sub` of rule j over the text after the first j - 1. */
  lemma ApplyRulesText(s: string, rules: seq<Rule>, j: nat)
    requires 0 < j <= |rules|
    ensures ApplyRules(s, rules[..j]).text ==
      Substitute(ApplyRules(s, rules[..j - 1]).text, rules[j - 1].value, rules[j - 1].replacement)
  {
    assert rules[..j][..j - 1] == rules[..j - 1] && rules[..j][j - 1] == rules[j - 1];
    StepText(ApplyRules(s, rules[..j - 1]), rules[j - 1]);
  }

  /** What stands in place of a call of entry k after the first j rules: the call, then its replacement. */
  function Held(needle: string, rules: seq<Rule>, k: nat, j: nat): string
    requires k < |rules|
  {
    if j <= k then needle else rules[k].replacement
  }

  /** Rule j keeps the call before entry k, replaces it at entry k, and keeps the replacement after. */
  lemma HeldStep(x: string, needle: string, y: string, rules: seq<Rule>, k: nat, j: nat)
    requires WellFormed(rules) && DistinctValues(rules) && k < |rules| && j < |rules|
    requires needle == IntNeedle(rules[k].value) || needle == FracNeedle(rules[k].value)
    ensures var r := rules[j];
      Substitute(x + Held(needle, rules, k, j) + y, r.value, r.replacement) ==
      Substitute(x, r.value, r.replacement) + Held(needle, rules, k, j + 1) + Substitute(y, r.value, r.replacement)
  {
    var r := rules[j];
    if j < k {
      SubstituteThrough(x, needle, y, rules[k].value, r.value, r.replacement);
    } else if j == k {
      SubstituteOccurrence(x, needle, y, r.value, r.replacement);
    } else {
      SubstituteAround(x, rules[k].replacement, y, r.value, r.replacement);
    }
  }

  /**
   * The first j rules over a text holding one call of the table's entry k:
   * the call is kept until rule k, replaced from then on, and the text on
   * either side goes through the same rules on its own.
   */
  lemma {:induction false} PassOccurrencePrefix(a: string, needle: string, b: string, rules: seq<Rule>, k: nat, j: nat)
    requires WellFormed(rules) && DistinctValues(rules) && k < |rules| && j <= |rules|
    requires needle == IntNeedle(rules[k].value) || needle == FracNeedle(rules[k].value)
    ensures ApplyRules(a + needle + b, rules[..j]).text ==
      ApplyRules(a, rules[..j]).text + Held(needle, rules, k, j) + ApplyRules(b, rules[..j]).text
    decreases j
  {
    if j > 0 {
      PassOccurrencePrefix(a, needle, b, rules, k, j - 1);
      ApplyRulesText(a + needle + b, rules, j);
      ApplyRulesText(a, rules, j);
      ApplyRulesText(b, rules, j);
      HeldStep(ApplyRules(a, rules[..j - 1]).text, needle, ApplyRules(b, rules[..j - 1]).text, rules, k, j - 1);
    }
  }

  /**
   * Every occurrence is rewritten by the pass: a call with a table literal,
   * bare or with `.0`, becomes that literal's replacement wherever it stands
   * in the text, the text around it goes through the pass unchanged in
   * meaning, and the flag is raised.
   */
  lemma PassOccurrence(a: string, needle: string, b: string, rules: seq<Rule>, k: nat)
    requires WellFormed(rules) && DistinctValues(rules) && k < |rules|
    requires needle == IntNeedle(rules[k].value) || needle == FracNeedle(rules[k].value)
    ensures ApplyRules(a + needle + b, rules).text ==
      ApplyRules(a, rules).text + rules[k].replacement + ApplyRules(b, rules).text
    ensures ApplyRules(a + needle + b, rules).changed
  {
    PassOccurrencePrefix(a, needle, b, rules, k, |rules|);
    assert rules[..|rules|] == rules;
    OccurrenceFound(a, needle, b, rules[k].value);
    ApplyRulesFlag(a + needle + b, rules);
  }

  /** `re.search` finds the pattern of the rule for v in a text holding one of its calls. */
  lemma OccurrenceFound(a: string, needle: string, b: string, v: string)
    requires needle == IntNeedle(v) || needle == FracNeedle(v)
    ensures !NoMatch(a + needle + b, v)
  {
    var s := a + needle + b;
    assert s[|a|..] == needle + b;
    MatchesPrefix(s[|a|..], v);
  }

  /** A text that is a single call with a table literal comes out as that literal's replacement. */
  lemma SingleCall(rules: seq<Rule>, k: nat, needle: string)
    requires WellFormed(rules) && DistinctValues(rules) && k < |rules|
    requires needle == IntNeedle(rules[k].value) || needle == FracNeedle(rules[k].value)
    ensures ApplyRules(needle, rules) == Pass(rules[k].replacement, true)
  {
    forall j | 0 <= j < |rules| ensures NoMatch([], rules[j].value) {
      MatchesPrefix([], rules[j].value);
    }
    CallAfter([], rules, k, needle);
    assert [] + needle == needle;
    assert [] + rules[k].replacement == rules[k].replacement;
  }

  /** A call whose literal is not in the table, bare or with `.0`, is left byte for byte. */
  lemma AbsentLiteral(arg: string, rules: seq<Rule>)
    requires WellFormed(rules)
    requires forall j :: 0 <= j < |arg| ==> arg[j] != 'B' && arg[j] != ')'
    requires forall k :: 0 <= k < |rules| ==> arg != rules[k].value && arg != rules[k].value + ".0"
    ensures ApplyRules(Wrapper + arg + ")", rules) == Pass(Wrapper + arg + ")", false)
  {
    forall k | 0 <= k < |rules| ensures NoMatch(Wrapper + arg + ")", rules[k].value) {
      ExactToken(arg, rules[k].value);
    }
    ApplyRulesCleared(Wrapper + arg + ")", rules);
  }

  /**
   * The first j rules over a text holding a call whose argument is no table
   * literal: the call is kept, and the text on either side goes through the
   * same rules on its own.
   */
  lemma {:induction false} PassThroughPrefix(a: string, arg: string, b: string, rules: seq<Rule>, j: nat)
    requires WellFormed(rules) && j <= |rules|
    requires forall i :: 0 <= i < |arg| ==> arg[i] != 'B' && arg[i] != ')'
    requires forall k :: 0 <= k < |rules| ==> arg != rules[k].value && arg != rules[k].value + ".0"
    ensures ApplyRules(a + (Wrapper + arg + ")") + b, rules[..j]).text ==
      ApplyRules(a, rules[..j]).text + (Wrapper + arg + ")") + ApplyRules(b, rules[..j]).text
    decreases j
  {
    if j > 0 {
      PassThroughPrefix(a, arg, b, rules, j - 1);
      ApplyRulesText(a + (Wrapper + arg + ")") + b, rules, j);
      ApplyRulesText(a, rules, j);
      ApplyRulesText(b, rules, j);
      var r := rules[j - 1];
      SubstitutePast(ApplyRules(a, rules[..j - 1]).text, arg, ApplyRules(b, rules[..j - 1]).text, r.value, r.replacement);
    }
  }

  /**
   * A call whose argument is no table literal, bare or with `.0`, is left
   * byte for byte wherever it stands: the text around it goes through the
   * pass on its own, and the call raises no flag of its own.
   */
  lemma PassThrough(a: string, arg: string, b: string, rules: seq<Rule>)
    requires WellFormed(rules)
    requires forall i :: 0 <= i < |arg| ==> arg[i] != 'B' && arg[i] != ')'
    requires forall k :: 0 <= k < |rules| ==> arg != rules[k].value && arg != rules[k].value + ".0"
    ensures ApplyRules(a + (Wrapper + arg + ")") + b, rules).text ==
      ApplyRules(a, rules).text + (Wrapper + arg + ")") + ApplyRules(b, rules).text
    ensures ApplyRules(a + (Wrapper + arg + ")") + b, rules).changed <==>
      ApplyRules(a, rules).changed || ApplyRules(b, rules).changed
  {
    PassThroughPrefix(a, arg, b, rules, |rules|);
    assert rules[..|rules|] == rules;
    var whole := a + (Wrapper + arg + ")") + b;
    forall k | 0 <= k < |rules| ensures NoMatch(whole, rules[k].value) <==> NoMatch(a, rules[k].value) && NoMatch(b, rules[k].value) {
      NoMatchPast(a, arg, b, rules[k].value);
    }
    ApplyRulesFlag(whole, rules);
    ApplyRulesFlag(a, rules);
    ApplyRulesFlag(b, rules);
  }

  /** In a longer text, the call with 5 survives the table while the call with 8 after it is rewritten. */
  lemma TableMixed()
    ensures ApplyRules("x(" + (Wrapper + "5" + ")") + ("); " + IntNeedle("8")), Rules) ==
      Pass("x(" + (Wrapper + "5" + ")") + ("); " + StyleConstant("buttonRadius")), true)
  {
    RulesWellFormed();
    FiveAbsent();
    PassThrough("x(", "5", "); " + IntNeedle("8"), Rules);
    TableWithoutB("x(");
    TableTrailing();
  }

  /** 5 is no table literal, bare or with `.0`. */
  lemma FiveAbsent()
    ensures forall k :: 0 <= k < |Rules| ==> "5" != Rules[k].value && "5" != Rules[k].value + ".0"
  {
    forall k | 0 <= k < |Rules| ensures "5" != Rules[k].value + ".0" {
      assert |Rules[k].value + ".0"| > 1;
    }
  }

  /** The call with 8 after a `B`-free text becomes `AppSpacing.buttonRadius`. */
  lemma TableTrailing()
    ensures ApplyRules("); " + IntNeedle("8"), Rules) == Pass("); " + StyleConstant("buttonRadius"), true)
  {
    RulesWellFormed();
    assert "); " + IntNeedle("8") == "); " + IntNeedle("8") + "";
    PassOccurrence("); ", IntNeedle("8"), "", Rules, 2);
    TableWithoutB("); ");
    TableWithoutB("");
  }

  /** Two of the table's calls, one in each spelling, become their replacements. */
  lemma TableCalls()
    ensures ApplyRules(IntNeedle("8"), Rules) == Pass(StyleConstant("buttonRadius"), true)
    ensures ApplyRules(FracNeedle("16"), Rules) == Pass(WrappedConstant("radiusXl"), true)
  {
    RulesWellFormed();
    SingleCall(Rules, 2, IntNeedle("8"));
    SingleCall(Rules, 4, FracNeedle("16"));
  }

  /** A text without `B` goes through the table's pass unchanged, with no change reported. */
  lemma TableWithoutB(s: string)
    requires 'B' !in s
    ensures ApplyRules(s, Rules) == Pass(s, false)
  {
    RulesWellFormed();
    forall k | 0 <= k < |Rules| ensures NoMatch(s, Rules[k].value) {
      NoMatchWithoutB(s, Rules[k].value);
    }
    ApplyRulesCleared(s, Rules);
  }

  /** A call nested in an argument list is rewritten too: `foo(BorderRadius.circular(8))`. */
  lemma TableNested()
    ensures ApplyRules("foo(" + IntNeedle("8") + ")", Rules) == Pass("foo(" + StyleConstant("buttonRadius") + ")", true)
  {
    RulesWellFormed();
    PassOccurrence("foo(", IntNeedle("8"), ")", Rules, 2);
    TableWithoutB("foo(");
    TableWithoutB(")");
  }

  /** Calls with 5 and with 100, literals the table does not list, are untouched. */
  lemma TableAbsent()
    ensures ApplyRules(IntNeedle("5"), Rules) == Pass(IntNeedle("5"), false)
    ensures ApplyRules(IntNeedle("100"), Rules) == Pass(IntNeedle("100"), false)
  {
    RulesWellFormed();
    AbsentLiteral("5", Rules);
    forall k | 0 <= k < |Rules| ensures "100" != Rules[k].value + ".0" {
      assert (Rules[k].value + ".0")[|Rules[k].value|] == '.';
    }
    AbsentLiteral("100", Rules);
  }

  /** The table's pass is idempotent on every text. */
  lemma TableIdempotent(s: string)
    ensures ApplyRules(ApplyRules(s, Rules).text, Rules) == Pass(ApplyRules(s, Rules).text, false)
  {
    RulesWellFormed();
    ApplyRulesIdempotent(s, Rules);
  }

  /** The rule for 2 leaves the calls with 20 and with 12 alone. */
  lemma ExactTokenTwo()
    ensures NoMatch(IntNeedle("20"), "2") && NoMatch(IntNeedle("12"), "2")
  {
    ExactToken("20", "2");
    ExactToken("12", "2");
  }

  /** The rule for 4 leaves the calls with 4.5 and with 40 alone. */
  lemma ExactTokenFour()
    ensures NoMatch(Wrapper + "4.5" + ")", "4") && NoMatch(IntNeedle("40"), "4")
  {
    assert "4" + ".0" == "4.0";
    ExactToken("4.5", "4");
    ExactToken("40", "4");
  }
}
