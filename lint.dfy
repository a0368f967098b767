/** The lint pass: reads the settings block of the configuration, then runs
    the enabled rules in the order field, type, enum, enum value, each on the
    previous rule's output, and stops at the first failure. */
module LintPipeline {
  import opened Validation
  import opened ConfigModel
  import opened LintRules

  /** A rule runs when it has an explicit style or `default` is set to true. */
  function Enabled(l: LintSettings, rule: Rule): bool
  {
    Override(l, rule).Some? || l.default.GetOr(false)
  }

  /** Autofix mode is off unless the settings turn it on. */
  function Autofix(l: LintSettings): bool
  {
    l.autofix.GetOr(false)
  }

  /** The rule for one namespace. */
  function RunRule(rule: Rule, config: Config, autofix: bool, conv: Converter): Valid<Config>
  {
    match rule
    case FieldRule => FieldLintSpec(config, autofix, conv)
    case TypeRule => TypeLintSpec(config, autofix, conv)
    case EnumRule => EnumLintSpec(config, autofix, conv)
    case EnumValueRule => EnumValueLintSpec(config, autofix, conv)
  }

  /** One stage of the pass: a failure is passed on, a disabled rule is
      skipped, and an enabled rule runs on the configuration so far. */
  function Step(prev: Result<Config>, l: LintSettings, rule: Rule, conv: Converter): Result<Config>
  {
    match prev
    case Err(_) => prev
    case Ok(config) => if Enabled(l, rule) then ToResult(RunRule(rule, config, Autofix(l), conv)) else prev
  }

  /** What the lint pass returns. */
  function LintSpec(config: Config, conv: Converter): Result<Config>
  {
    match config.server.lint
    case None => Ok(config)
    case Some(l) =>
      Step(Step(Step(Step(Ok(config), l, FieldRule, conv), l, TypeRule, conv), l, EnumRule, conv), l, EnumValueRule, conv)
  }

  /** Runs the method of one rule and turns its outcome into a result. */
  method ApplyRule(rule: Rule, config: Config, autofix: bool, conv: Converter) returns (r: Result<Config>)
    ensures r == ToResult(RunRule(rule, config, autofix, conv))
  {
    var v: Valid<Config>;
    match rule {
      case FieldRule => v := FieldLint(config, autofix, conv);
      case TypeRule => v := TypeLint(config, autofix, conv);
      case EnumRule => v := EnumLint(config, autofix, conv);
      case EnumValueRule => v := EnumValueLint(config, autofix, conv);
    }
    r := ToResult(v);
  }

  /** One `if` block of the pass: a rule that is switched on runs on the
      configuration so far and its failure ends the pass; the failure then
      flows through the remaining stages untouched, as the early return does. */
  method Stage(prev: Result<Config>, l: LintSettings, rule: Rule, conv: Converter) returns (next: Result<Config>)
    ensures next == Step(prev, l, rule, conv)
  {
    if prev.Err? {
      return prev;
    }
    if Override(l, rule).Some? || l.default.GetOr(false) {
      next := ApplyRule(rule, prev.value, l.autofix.GetOr(false), conv);
    } else {
      next := prev;
    }
  }

  method Lint(config: Config, conv: Converter) returns (r: Result<Config>)
    ensures r == LintSpec(config, conv)
  {
    if config.server.lint.None? {
      return Ok(config);
    }
    var l := config.server.lint.value;
    r := Ok(config);
    r := Stage(r, l, FieldRule, conv);
    r := Stage(r, l, TypeRule, conv);
    r := Stage(r, l, EnumRule, conv);
    r := Stage(r, l, EnumValueRule, conv);
  }
}
