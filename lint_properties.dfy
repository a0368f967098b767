/** What the whole lint pass guarantees: no effect without settings, report
    mode stops at the first failing rule on the unchanged input, autofix mode
    never fails, and a second autofix pass over its own output changes
    nothing. */
module LintProperties {
  import opened Validation
  import opened Ordering
  import opened ConfigModel
  import opened NameWalk
  import opened LintRules
  import opened RuleProperties
  import opened LintPipeline

  /** Without a settings block the pass returns its input. */
  lemma LintWithoutSettings(config: Config, conv: Converter)
    requires config.server.lint.None?
    ensures LintSpec(config, conv) == Ok(config)
  {
  }

  /** With no rule switched on the pass returns its input. */
  lemma LintNothingEnabled(config: Config, conv: Converter)
    requires config.server.lint.Some?
    requires forall rule :: !Enabled(config.server.lint.value, rule)
    ensures LintSpec(config, conv) == Ok(config)
  {
    var l := config.server.lint.value;
    assert !Enabled(l, FieldRule) && !Enabled(l, TypeRule) && !Enabled(l, EnumRule) && !Enabled(l, EnumValueRule);
  }

  /** A rule switches on through its own style or through `default`. */
  lemma EnabledIff(l: LintSettings)
    ensures Enabled(l, FieldRule) <==> l.fieldLint.Some? || l.default == Some(true)
    ensures Enabled(l, TypeRule) <==> l.typeLint.Some? || l.default == Some(true)
    ensures Enabled(l, EnumRule) <==> l.enumLint.Some? || l.default == Some(true)
    ensures Enabled(l, EnumValueRule) <==> l.enumValueLint.Some? || l.default == Some(true)
    ensures Autofix(l) <==> l.autofix == Some(true)
  {
  }

  // ----------------------------------------------------------- report mode

  /** The rules in the order the pass visits them. */
  function RuleOrder(): (r: seq<Rule>)
    ensures |r| == 4
  {
    [FieldRule, TypeRule, EnumRule, EnumValueRule]
  }

  /** The outcome of report mode, stated on the input alone: the failure of
      the first switched-on rule that fails on the input, else the input. */
  function FirstReport(config: Config, l: LintSettings, conv: Converter, rules: seq<Rule>): Result<Config>
    decreases |rules|
  {
    if rules == [] then Ok(config)
    else if Enabled(l, rules[0]) && RunRule(rules[0], config, false, conv).Fail? then
      Err(RunRule(rules[0], config, false, conv).message)
    else FirstReport(config, l, conv, rules[1..])
  }

  /** In report mode a rule either fails or returns its input. */
  lemma ReportKeeps(rule: Rule, config: Config, conv: Converter)
    ensures RunRule(rule, config, false, conv).Succeed? ==> RunRule(rule, config, false, conv).value == config
  {
    if config.server.lint.Some? {
      match rule
      case FieldRule => FieldLintReport(config, conv);
      case TypeRule => TypeLintReport(config, conv);
      case EnumRule => EnumLintAlwaysSucceeds(config, false, conv);
      case EnumValueRule => EnumValueLintReport(config, conv);
    }
  }

  lemma StepReport(config: Config, l: LintSettings, rule: Rule, conv: Converter)
    requires !Autofix(l)
    ensures Step(Ok(config), l, rule, conv)
         == if Enabled(l, rule) && RunRule(rule, config, false, conv).Fail? then Err(RunRule(rule, config, false, conv).message)
            else Ok(config)
  {
    ReportKeeps(rule, config, conv);
  }

  /** Report mode: every rule sees the unchanged input, and the pass returns
      the failure of the first switched-on rule that fails, so no later rule
      runs; when none fails the input comes back unchanged. */
  lemma LintReportMode(config: Config, conv: Converter)
    requires config.server.lint.Some? && !Autofix(config.server.lint.value)
    ensures LintSpec(config, conv) == FirstReport(config, config.server.lint.value, conv, RuleOrder())
  {
    var l := config.server.lint.value;
    var rules := RuleOrder();
    StepReport(config, l, FieldRule, conv);
    StepReport(config, l, TypeRule, conv);
    StepReport(config, l, EnumRule, conv);
    StepReport(config, l, EnumValueRule, conv);
    assert rules[1..][1..][1..][1..] == [];
  }

  /** Report mode fails exactly when a switched-on field, type or enum value
      rule finds a name that differs from its conversion; non-conforming enum
      names alone never make it fail. */
  lemma LintReportFails(config: Config, conv: Converter)
    requires config.server.lint.Some? && !Autofix(config.server.lint.value)
    ensures var l := config.server.lint.value;
      LintSpec(config, conv).Err? <==>
        || (Enabled(l, FieldRule) && AllBadFields(config.types, conv, StyleOf(l, FieldRule)) != {})
        || (Enabled(l, TypeRule) && BadKeys(config.types, conv, StyleOf(l, TypeRule)) != {})
        || (Enabled(l, EnumValueRule) && AllBadVariants(config.enums, conv, StyleOf(l, EnumValueRule)) != {})
    ensures LintSpec(config, conv).Ok? ==> LintSpec(config, conv).value == config
  {
    var l := config.server.lint.value;
    LintReportMode(config, conv);
    FieldLintReport(config, conv);
    TypeLintReport(config, conv);
    EnumLintAlwaysSucceeds(config, false, conv);
    EnumValueLintReport(config, conv);
    var rules := RuleOrder();
    assert rules[1..][1..][1..][1..] == [];
  }

  // ---------------------------------------------------------- autofix mode

  /** An autofix rule succeeds and keeps the server settings. */
  lemma AutofixStep(config: Config, l: LintSettings, rule: Rule, conv: Converter)
    requires Autofix(l)
    ensures Step(Ok(config), l, rule, conv).Ok?
    ensures Step(Ok(config), l, rule, conv).value.server == config.server
  {
  }

  /** Autofix mode never fails and keeps the server settings. */
  lemma LintAutofixNeverFails(config: Config, conv: Converter)
    requires config.server.lint.Some? && Autofix(config.server.lint.value)
    ensures LintSpec(config, conv).Ok?
    ensures LintSpec(config, conv).value.server == config.server
  {
    var l := config.server.lint.value;
    AutofixStep(config, l, FieldRule, conv);
    var c1 := Step(Ok(config), l, FieldRule, conv).value;
    AutofixStep(c1, l, TypeRule, conv);
    var c2 := Step(Ok(c1), l, TypeRule, conv).value;
    AutofixStep(c2, l, EnumRule, conv);
    var c3 := Step(Ok(c2), l, EnumRule, conv).value;
    AutofixStep(c3, l, EnumValueRule, conv);
  }

  /** Every name of a rule's namespace conforms to `style`. */
  ghost predicate Clean(rule: Rule, config: Config, conv: Converter, style: Case)
  {
    match rule
    case FieldRule => forall n, k :: n in config.types && k in config.types[n].fields ==> conv(k, style) == k
    case TypeRule => forall n :: n in config.types ==> conv(n, style) == n
    case EnumRule => forall n :: n in config.enums ==> conv(n, style) == n
    case EnumValueRule => forall n, v :: n in config.enums && v in config.enums[n].variants ==> conv(v.name, style) == v.name
  }

  /** The position of a rule in the pass. */
  function Position(rule: Rule): (r: nat)
    ensures r < 4 && RuleOrder()[r] == rule
  {
    match rule
    case FieldRule => 0
    case TypeRule => 1
    case EnumRule => 2
    case EnumValueRule => 3
  }

  /** The autofix walk over a map whose names all conform changes nothing. */
  lemma NoopWalk<V>(m: map<string, V>, conv: Converter, style: Case)
    requires forall k :: k in m ==> conv(k, style) == k
    ensures RenameAll(m, SortedKeys(m.Keys), conv, style) == m
  {
    var keys := SortedKeys(m.Keys);
    assert forall i :: 0 <= i < |keys| ==> keys[i] in m;
    RenameAllNoop(m, keys, conv, style);
  }

  lemma FieldsNoop(types: map<string, Type>, conv: Converter, style: Case)
    requires forall n, k :: n in types && k in types[n].fields ==> conv(k, style) == k
    ensures (map n | n in types :: FixFields(types[n], conv, style)) == types
  {
    forall n | n in types ensures FixFields(types[n], conv, style) == types[n] {
      NoopWalk(types[n].fields, conv, style);
    }
  }

  lemma VariantsNoop(enums: map<string, Enum>, conv: Converter, style: Case)
    requires forall n, v :: n in enums && v in enums[n].variants ==> conv(v.name, style) == v.name
    ensures (map n | n in enums :: FixEnum(enums[n], conv, style)) == enums
  {
    forall n | n in enums ensures FixEnum(enums[n], conv, style) == enums[n] {
      var vs := enums[n].variants;
      assert forall v :: v in vs ==> FixVariant(v, conv, style) == v;
      assert RenamedVariants(vs, conv, style) == vs;
    }
  }

  /** On a namespace that is already clean, the autofix rule changes nothing. */
  lemma CleanIsNoop(rule: Rule, config: Config, conv: Converter)
    requires config.server.lint.Some?
    requires Clean(rule, config, conv, StyleOf(config.server.lint.value, rule))
    ensures RunRule(rule, config, true, conv) == Succeed(config)
  {
    var style := StyleOf(config.server.lint.value, rule);
    match rule
    case FieldRule => FieldsNoop(config.types, conv, style);
    case TypeRule => NoopWalk(config.types, conv, style);
    case EnumRule => NoopWalk(config.enums, conv, style);
    case EnumValueRule => VariantsNoop(config.enums, conv, style);
  }

  /** An autofix rule leaves its own namespace clean, when the conversion to
      its style is idempotent. */
  lemma AutofixMakesClean(rule: Rule, config: Config, conv: Converter)
    requires config.server.lint.Some?
    requires Idempotent(conv, StyleOf(config.server.lint.value, rule))
    ensures Clean(rule, RunRule(rule, config, true, conv).value, conv, StyleOf(config.server.lint.value, rule))
  {
    var style := StyleOf(config.server.lint.value, rule);
    match rule
    case FieldRule => FieldLintAutofix(config, conv);
    case TypeRule => TypeLintAutofix(config, conv);
    case EnumRule => EnumLintAutofix(config, conv);
    case EnumValueRule =>
      var r := RunRule(rule, config, true, conv).value;
      forall n, v | n in r.enums && v in r.enums[n].variants ensures conv(v.name, style) == v.name {
        RenamedVariantsFacts(config.enums[n].variants, conv, style);
      }
  }

  /** An autofix rule keeps clean the namespaces of the rules before it,
      whatever the conversion. */
  lemma AutofixKeepsClean(rule: Rule, earlier: Rule, config: Config, conv: Converter, style: Case)
    requires config.server.lint.Some?
    requires Position(earlier) < Position(rule)
    requires Clean(earlier, config, conv, style)
    ensures Clean(earlier, RunRule(rule, config, true, conv).value, conv, style)
  {
    var r := RunRule(rule, config, true, conv).value;
    if rule == TypeRule {
      assert earlier == FieldRule;
      TypeLintAutofixKeepsTypes(config, conv);
      forall t, k | t in r.types && k in r.types[t].fields ensures conv(k, style) == k {
        var n :| n in config.types && r.types[t] == config.types[n];
        assert k in config.types[n].fields;
      }
    }
  }

  /** A stage of an autofix pass: the result keeps the server settings, the
      rule's own namespace is clean when the rule is switched on, and the
      namespaces of earlier rules stay clean. */
  lemma AutofixStage(config: Config, rule: Rule, conv: Converter)
    requires config.server.lint.Some?
    requires var l := config.server.lint.value;
      Autofix(l) && (Enabled(l, rule) ==> Idempotent(conv, StyleOf(l, rule)))
    ensures var l := config.server.lint.value;
      var next := Step(Ok(config), l, rule, conv);
      && next.Ok? && next.value.server == config.server
      && (Enabled(l, rule) ==> Clean(rule, next.value, conv, StyleOf(l, rule)))
      && (forall earlier :: Position(earlier) < Position(rule) && Enabled(l, earlier) && Clean(earlier, config, conv, StyleOf(l, earlier))
            ==> Clean(earlier, next.value, conv, StyleOf(l, earlier)))
  {
    var l := config.server.lint.value;
    AutofixStep(config, l, rule, conv);
    if Enabled(l, rule) {
      AutofixMakesClean(rule, config, conv);
      forall earlier | Position(earlier) < Position(rule) && Enabled(l, earlier) && Clean(earlier, config, conv, StyleOf(l, earlier))
        ensures Clean(earlier, Step(Ok(config), l, rule, conv).value, conv, StyleOf(l, earlier))
      {
        AutofixKeepsClean(rule, earlier, config, conv, StyleOf(l, earlier));
      }
    }
  }

  /** Autofix converges: when conversion to each switched-on style is
      idempotent, a second pass over the output of an autofix pass returns
      that output unchanged. */
  lemma LintConverges(config: Config, conv: Converter)
    requires config.server.lint.Some? && Autofix(config.server.lint.value)
    requires forall rule :: Enabled(config.server.lint.value, rule) ==> Idempotent(conv, StyleOf(config.server.lint.value, rule))
    ensures LintSpec(config, conv).Ok?
    ensures LintSpec(LintSpec(config, conv).value, conv) == LintSpec(config, conv)
  {
    var l := config.server.lint.value;
    AutofixStage(config, FieldRule, conv);
    var c1 := Step(Ok(config), l, FieldRule, conv).value;
    AutofixStage(c1, TypeRule, conv);
    var c2 := Step(Ok(c1), l, TypeRule, conv).value;
    AutofixStage(c2, EnumRule, conv);
    var c3 := Step(Ok(c2), l, EnumRule, conv).value;
    AutofixStage(c3, EnumValueRule, conv);
    var c4 := Step(Ok(c3), l, EnumValueRule, conv).value;
    assert LintSpec(config, conv) == Ok(c4);
    forall rule | Enabled(l, rule) ensures Step(Ok(c4), l, rule, conv) == Ok(c4) {
      assert Clean(rule, c4, conv, StyleOf(l, rule));
      CleanIsNoop(rule, c4, conv);
    }
  }
}
