/**
 * The fixed configuration of the rewriter: the value-to-replacement table,
 * the file names that are never rewritten, and the style module the
 * replacements refer to.
 */
module Registry {
  import opened Text

  /** One entry of the replacement table: a numeric literal and what replaces its call. */
  datatype Rule = Rule(value: string, replacement: string)

  /**
   * The two shapes of replacement the table uses: one that stands in for the
   * whole `BorderRadius.circular(...)` call, and one that keeps the call and
   * only swaps its argument for a named constant.
   */
  datatype Kind = FullExpression | WrappedArgument

  /** The call whose literal argument the rewriter looks for, up to the argument. */
  const Wrapper: string := "BorderRadius.circular("

  /** The prefix every named constant of the style module carries. */
  const StylePrefix: string := "AppSpacing."

  /** A style constant: `AppSpacing.<name>`. */
  function StyleConstant(name: string): string {
    StylePrefix + name
  }

  /** The wrapper call around a style constant: `BorderRadius.circular(AppSpacing.<name>)`. */
  function WrappedConstant(name: string): string {
    Wrapper + StyleConstant(name) + ")"
  }

  /** The replacement table, in the order its entries are applied. */
  const Rules: seq<Rule> := [
    Rule("2", WrappedConstant("radiusXs")),
    Rule("4", StyleConstant("badgeRadius")),
    Rule("8", StyleConstant("buttonRadius")),
    Rule("12", StyleConstant("cardRadius")),
    Rule("16", WrappedConstant("radiusXl")),
    Rule("20", StyleConstant("pillRadius")),
    Rule("24", WrappedConstant("radiusXxl"))
  ]

  /** File names that are never collected for rewriting. */
  const SkipFiles: set<string> := {"app_theme.dart", "app_spacing.dart"}

  /** File name of the style module; also the marker that an import is already present. */
  const StyleFileName: string := "app_spacing.dart"

  /** Location of the style module below the library root. */
  const StyleSubPath: seq<string> := ["core", "theme", StyleFileName]

  /** Which of the two shapes a replacement has. */
  function KindOf(rule: Rule): Kind {
    if Wrapper <= rule.replacement then WrappedArgument else FullExpression
  }

  predicate IsDigit(c: char) {
    '0' <= c <= '9'
  }

  /** A literal the table can hold: a non-empty run of decimal digits. */
  predicate IsNumeral(v: string) {
    |v| > 0 && forall j :: 0 <= j < |v| ==> IsDigit(v[j])
  }

  /**
   * A replacement that cannot take part in any match: it starts with `A` or
   * `B`, has no `B` after its first character, and when it starts with the
   * wrapper the character after the wrapper is not a digit.
   */
  predicate SafeReplacement(rep: string) {
    && |rep| > 0
    && (rep[0] == 'A' || rep[0] == 'B')
    && (forall j :: 0 < j < |rep| ==> rep[j] != 'B')
    && (rep[0] == 'B' ==> |rep| > |Wrapper| && !IsDigit(rep[|Wrapper|]))
  }

  /** Every table entry has a numeral literal and a replacement that cannot match. */
  predicate WellFormed(rules: seq<Rule>) {
    forall k :: 0 <= k < |rules| ==> IsNumeral(rules[k].value) && SafeReplacement(rules[k].replacement)
  }

  /** No literal occurs twice in the table. */
  predicate DistinctValues(rules: seq<Rule>) {
    forall i, j :: 0 <= i < j < |rules| ==> rules[i].value != rules[j].value
  }

  /** The wrapper holds no `A`, no digit and no `)`, and its only `B` is its first character. */
  lemma WrapperChars()
    ensures |Wrapper| == 22 && Wrapper[0] == 'B'
    ensures forall k :: 0 < k < |Wrapper| ==> Wrapper[k] != 'A' && Wrapper[k] != 'B' && !IsDigit(Wrapper[k])
    ensures forall k :: 0 <= k < |Wrapper| ==> Wrapper[k] != ')'
  {
  }

  /** A replacement that keeps the wrapper call around a style constant cannot match. */
  lemma WrappedConstantSafe(name: string)
    requires forall j :: 0 <= j < |name| ==> name[j] != 'B'
    ensures SafeReplacement(WrappedConstant(name))
  {
    WrapperChars();
    var rep := WrappedConstant(name);
    assert rep[|Wrapper|] == 'A';
    forall j | 0 < j < |rep| ensures rep[j] != 'B' {
      if j < |Wrapper| { assert rep[j] == Wrapper[j]; }
      else if j < |Wrapper| + |StylePrefix| { assert rep[j] == StylePrefix[j - |Wrapper|]; }
      else if j < |rep| - 1 { assert rep[j] == name[j - |Wrapper| - |StylePrefix|]; }
    }
  }

  /** A replacement that stands in for the whole call cannot match. */
  lemma StyleConstantSafe(name: string)
    requires forall j :: 0 <= j < |name| ==> name[j] != 'B'
    ensures SafeReplacement(StyleConstant(name))
  {
    var rep := StyleConstant(name);
    forall j | 0 < j < |rep| ensures rep[j] != 'B' {
      if j < |StylePrefix| { assert rep[j] == StylePrefix[j]; }
      else { assert rep[j] == name[j - |StylePrefix|]; }
    }
  }

  /** One entry of the table has a numeral literal and a replacement that cannot match. */
  lemma RuleWellFormed(k: nat)
    requires k < |Rules|
    ensures IsNumeral(Rules[k].value) && SafeReplacement(Rules[k].replacement)
  {
    if k == 0 { WrappedConstantSafe("radiusXs"); }
    else if k == 1 { StyleConstantSafe("badgeRadius"); }
    else if k == 2 { StyleConstantSafe("buttonRadius"); }
    else if k == 3 { StyleConstantSafe("cardRadius"); }
    else if k == 4 { WrappedConstantSafe("radiusXl"); }
    else if k == 5 { StyleConstantSafe("pillRadius"); }
    else { WrappedConstantSafe("radiusXxl"); }
  }

  /** The table satisfies the conditions the rewrite proofs rely on. */
  lemma RulesWellFormed()
    ensures WellFormed(Rules) && DistinctValues(Rules)
  {
    forall k | 0 <= k < |Rules|
      ensures IsNumeral(Rules[k].value) && SafeReplacement(Rules[k].replacement)
    {
      RuleWellFormed(k);
    }
  }

  /** The shape of an entry that keeps the wrapper call around a style constant. */
  lemma WrappedShape(v: string, name: string)
    ensures var rep := WrappedConstant(name);
      && KindOf(Rule(v, rep)) == WrappedArgument
      && |rep| > |Wrapper| + |StylePrefix| && rep[|Wrapper|..|Wrapper| + |StylePrefix|] == StylePrefix
      && rep[|rep| - 1] == ')'
  {
    var rep := WrappedConstant(name);
    assert rep == Wrapper + (StylePrefix + name + ")");
    assert rep[|Wrapper|..][..|StylePrefix|] == StylePrefix;
  }

  /** The shape of an entry that stands in for the whole call with a style constant. */
  lemma FullShape(v: string, name: string)
    ensures KindOf(Rule(v, StyleConstant(name))) == FullExpression
    ensures StylePrefix <= StyleConstant(name)
  {
    assert StyleConstant(name)[0] == 'A';
  }

  /** A style constant named `<stem>Radius` ends in `Radius`. */
  lemma RadiusName(stem: string)
    ensures EndsWith(StyleConstant(stem + "Radius"), "Radius")
  {
    var rep := StyleConstant(stem + "Radius");
    assert rep == (StylePrefix + stem) + "Radius";
  }

  /** Every entry that replaces the whole call names a constant ending in `Radius`. */
  lemma RuleRadius(k: nat)
    requires k < |Rules|
    ensures KindOf(Rules[k]) == FullExpression ==> EndsWith(Rules[k].replacement, "Radius")
  {
    if k == 1 { RadiusName("badge"); assert Rules[k].replacement == StyleConstant("badge" + "Radius"); }
    else if k == 2 { RadiusName("button"); assert Rules[k].replacement == StyleConstant("button" + "Radius"); }
    else if k == 3 { RadiusName("card"); assert Rules[k].replacement == StyleConstant("card" + "Radius"); }
    else if k == 5 { RadiusName("pill"); assert Rules[k].replacement == StyleConstant("pill" + "Radius"); }
    else { RuleShape(k); }
  }

  /** One entry of the table and its shape. */
  lemma RuleShape(k: nat)
    requires k < |Rules|
    ensures KindOf(Rules[k]) == WrappedArgument <==> Rules[k].value in {"2", "16", "24"}
    ensures KindOf(Rules[k]) == WrappedArgument ==>
      var rep := Rules[k].replacement;
      |rep| > |Wrapper| + |StylePrefix| && rep[|Wrapper|..|Wrapper| + |StylePrefix|] == StylePrefix && rep[|rep| - 1] == ')'
    ensures KindOf(Rules[k]) == FullExpression ==> StylePrefix <= Rules[k].replacement
  {
    if k == 0 { WrappedShape("2", "radiusXs"); }
    else if k == 1 { FullShape("4", "badgeRadius"); }
    else if k == 2 { FullShape("8", "buttonRadius"); }
    else if k == 3 { FullShape("12", "cardRadius"); }
    else if k == 4 { WrappedShape("16", "radiusXl"); }
    else if k == 5 { FullShape("20", "pillRadius"); }
    else { WrappedShape("24", "radiusXxl"); }
  }

  /**
   * The table's two shapes: entries 2, 16 and 24 keep the wrapper call around
   * a style constant, entries 4, 8, 12 and 20 replace the whole call by a
   * style constant whose name ends in `Radius`.
   */
  lemma RuleKinds()
    ensures forall k :: 0 <= k < |Rules| ==>
      (KindOf(Rules[k]) == WrappedArgument <==> Rules[k].value in {"2", "16", "24"})
    ensures forall k :: 0 <= k < |Rules| && KindOf(Rules[k]) == WrappedArgument ==>
      var rep := Rules[k].replacement;
      |rep| > |Wrapper| + |StylePrefix| && rep[|Wrapper|..|Wrapper| + |StylePrefix|] == StylePrefix && rep[|rep| - 1] == ')'
    ensures forall k :: 0 <= k < |Rules| && KindOf(Rules[k]) == FullExpression ==>
      StylePrefix <= Rules[k].replacement && EndsWith(Rules[k].replacement, "Radius")
  {
    forall k | 0 <= k < |Rules|
      ensures KindOf(Rules[k]) == WrappedArgument <==> Rules[k].value in {"2", "16", "24"}
      ensures KindOf(Rules[k]) == WrappedArgument ==>
        var rep := Rules[k].replacement;
        |rep| > |Wrapper| + |StylePrefix| && rep[|Wrapper|..|Wrapper| + |StylePrefix|] == StylePrefix && rep[|rep| - 1] == ')'
      ensures KindOf(Rules[k]) == FullExpression ==>
        StylePrefix <= Rules[k].replacement && EndsWith(Rules[k].replacement, "Radius")
    {
      RuleShape(k);
      RuleRadius(k);
    }
  }
}
