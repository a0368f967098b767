/** The four naming rules. Each reads the lint settings of the configuration
    it is given, walks one namespace in key order, and either reports every
    name that differs from its conversion or renames it. */
module LintRules {
  import opened Validation
  import opened Ordering
  import opened ConfigModel
  import opened NameWalk

  /** The four namespaces, in the order the lint pass visits them. */
  datatype Rule = FieldRule | TypeRule | EnumRule | EnumValueRule

  /** The explicit style a setting block gives a rule, if any. */
  function Override(l: LintSettings, rule: Rule): Option<TextCase>
  {
    match rule
    case FieldRule => l.fieldLint
    case TypeRule => l.typeLint
    case EnumRule => l.enumLint
    case EnumValueRule => l.enumValueLint
  }

  /** The style a rule falls back to when no explicit style is set. */
  function DefaultStyle(rule: Rule): TextCase
  {
    match rule
    case FieldRule => CamelCase
    case TypeRule => PascalCase
    case EnumRule => PascalCase
    case EnumValueRule => AllCaps
  }

  /** The conversion a rule applies: the explicit style, else the fallback. */
  function StyleOf(l: LintSettings, rule: Rule): Case
  {
    TransformTextCase(Override(l, rule).GetOr(DefaultStyle(rule)))
  }

  /** Without an explicit style, fields are checked against camelCase, type
      and enum names against PascalCase, and variant names against the
      upper-case conversion; an explicit style always wins. */
  lemma EffectiveStyles(l: LintSettings, rule: Rule)
    ensures l.fieldLint.None? ==> StyleOf(l, FieldRule) == Camel
    ensures l.typeLint.None? ==> StyleOf(l, TypeRule) == Pascal
    ensures l.enumLint.None? ==> StyleOf(l, EnumRule) == Pascal
    ensures l.enumValueLint.None? ==> StyleOf(l, EnumValueRule) == Upper
    ensures Override(l, rule).Some? ==> StyleOf(l, rule) == TransformTextCase(Override(l, rule).value)
  {
  }

  // ---------------------------------------------------------------- fields

  /** A type after the autofix walk over its fields. */
  function FixFields(t: Type, conv: Converter, style: Case): Type
  {
    t.(fields := RenameAll(t.fields, SortedKeys(t.fields.Keys), conv, style))
  }

  /** The field diagnostics for the types named by `names`, type by type. */
  function FieldMismatches(types: map<string, Type>, names: seq<string>, conv: Converter, style: Case): seq<string>
    requires forall i :: 0 <= i < |names| ==> names[i] in types
    decreases |names|
  {
    if names == [] then []
    else
      var fields := types[names[|names| - 1]].fields;
      FieldMismatches(types, names[..|names| - 1], conv, style)
        + Mismatches("field", SortedKeys(fields.Keys), conv, style)
  }

  /** The report walk over a map finds nothing exactly when every key conforms. */
  lemma NoMismatches<V>(category: string, m: map<string, V>, conv: Converter, style: Case)
    ensures Mismatches(category, SortedKeys(m.Keys), conv, style) == []
        <==> forall k :: k in m ==> conv(k, style) == k
  {
    var keys := SortedKeys(m.Keys);
    if Mismatches(category, keys, conv, style) == [] {
      forall k | k in m ensures conv(k, style) == k {
        var i :| 0 <= i < |keys| && keys[i] == k;
      }
    }
  }

  /** Field diagnostics are produced for a walk exactly when some field
      name of a walked type differs from its conversion. */
  lemma FieldMismatchesEmpty(types: map<string, Type>, names: seq<string>, conv: Converter, style: Case)
    requires forall i :: 0 <= i < |names| ==> names[i] in types
    ensures FieldMismatches(types, names, conv, style) == []
        <==> forall i, k :: 0 <= i < |names| && k in types[names[i]].fields ==> conv(k, style) == k
  {
    if FieldMismatches(types, names, conv, style) == [] {
      FieldMismatchesNone(types, names, conv, style);
    } else {
      FieldMismatchesSome(types, names, conv, style);
    }
  }

  lemma {:induction false} FieldMismatchesNone(types: map<string, Type>, names: seq<string>, conv: Converter, style: Case)
    requires forall i :: 0 <= i < |names| ==> names[i] in types
    requires FieldMismatches(types, names, conv, style) == []
    ensures forall i, k :: 0 <= i < |names| && k in types[names[i]].fields ==> conv(k, style) == k
    decreases |names|
  {
    if names != [] {
      var n := |names| - 1;
      var front := names[..n];
      var fields := types[names[n]].fields;
      assert FieldMismatches(types, names, conv, style) == FieldMismatches(types, front, conv, style) + Mismatches("field", SortedKeys(fields.Keys), conv, style);
      assert FieldMismatches(types, front, conv, style) == [];
      assert Mismatches("field", SortedKeys(fields.Keys), conv, style) == [];
      NoMismatches("field", fields, conv, style);
      FieldMismatchesNone(types, front, conv, style);
      forall i, k | 0 <= i < |names| && k in types[names[i]].fields ensures conv(k, style) == k {
        if i < n {
          assert front[i] == names[i];
          assert k in types[front[i]].fields;
        } else {
          assert i == n;
          assert k in fields;
        }
      }
    }
  }

  lemma {:induction false} FieldMismatchesSome(types: map<string, Type>, names: seq<string>, conv: Converter, style: Case)
    requires forall i :: 0 <= i < |names| ==> names[i] in types
    requires FieldMismatches(types, names, conv, style) != []
    ensures exists i, k :: 0 <= i < |names| && k in types[names[i]].fields && conv(k, style) != k
    decreases |names|
  {
    var n := |names| - 1;
    var front := names[..n];
    var fields := types[names[n]].fields;
    if FieldMismatches(types, front, conv, style) != [] {
      FieldMismatchesSome(types, front, conv, style);
      var i, k :| 0 <= i < n && k in types[front[i]].fields && conv(k, style) != k;
      assert names[i] == front[i];
    } else {
      NoMismatches("field", fields, conv, style);
      var k :| k in fields && conv(k, style) != k;
      assert k in types[names[n]].fields;
    }
  }

  /** What the field rule returns. */
  function FieldLintSpec(config: Config, autofix: bool, conv: Converter): Valid<Config>
  {
    match config.server.lint
    case None => Succeed(config)
    case Some(l) =>
      var style := StyleOf(l, FieldRule);
      if autofix then
        Succeed(config.(types := map n | n in config.types :: FixFields(config.types[n], conv, style)))
      else
        var errors := FieldMismatches(config.types, SortedKeys(config.types.Keys), conv, style);
        if errors == [] then Succeed(config) else Fail(Join(errors, "\n"))
  }

  /** The types map once the autofix walk has fixed the fields of the types
      named in `done`, one after another. */
  ghost function FieldsFixedSoFar(types: map<string, Type>, done: seq<string>, conv: Converter, style: Case): map<string, Type>
    decreases |done|
  {
    if done == [] then types
    else
      var n := done[|done| - 1];
      var prior := FieldsFixedSoFar(types, done[..|done| - 1], conv, style);
      if n in types then prior[n := FixFields(types[n], conv, style)] else prior
  }

  lemma {:induction false} FieldsFixedSoFarAt(types: map<string, Type>, done: seq<string>, conv: Converter, style: Case)
    ensures FieldsFixedSoFar(types, done, conv, style).Keys == types.Keys
    ensures forall n :: n in types ==>
              FieldsFixedSoFar(types, done, conv, style)[n] == if n in done then FixFields(types[n], conv, style) else types[n]
    decreases |done|
  {
    if done != [] {
      var front := done[..|done| - 1];
      FieldsFixedSoFarAt(types, front, conv, style);
      assert done == front + [done[|done| - 1]];
    }
  }

  lemma FieldsFixedSoFarUntouched(types: map<string, Type>, done: seq<string>, n: string, conv: Converter, style: Case)
    requires n in types && n !in done
    ensures n in FieldsFixedSoFar(types, done, conv, style) && FieldsFixedSoFar(types, done, conv, style)[n] == types[n]
  {
    FieldsFixedSoFarAt(types, done, conv, style);
  }

  lemma FieldsFixedAll(types: map<string, Type>, names: seq<string>, conv: Converter, style: Case)
    requires forall n :: n in types ==> n in names
    ensures FieldsFixedSoFar(types, names, conv, style) == map n | n in types :: FixFields(types[n], conv, style)
  {
    FieldsFixedSoFarAt(types, names, conv, style);
  }

  lemma FieldsFixedSoFarStep(types: map<string, Type>, names: seq<string>, i: nat, conv: Converter, style: Case)
    requires i < |names| && names[i] in types
    ensures FieldsFixedSoFar(types, names[..i + 1], conv, style)
         == FieldsFixedSoFar(types, names[..i], conv, style)[names[i] := FixFields(types[names[i]], conv, style)]
  {
    assert names[..i + 1][..i] == names[..i];
  }

  /** A key of an increasing key sequence does not occur before its position. */
  lemma NotBefore(names: seq<string>, i: nat)
    requires i < |names|
    requires forall a, b :: 0 <= a < b < |names| ==> names[a] != names[b]
    ensures names[i] !in names[..i]
  {
  }

  lemma FieldMismatchesStep(types: map<string, Type>, names: seq<string>, i: nat, conv: Converter, style: Case)
    requires i < |names|
    requires forall j :: 0 <= j < |names| ==> names[j] in types
    ensures FieldMismatches(types, names[..i + 1], conv, style)
         == FieldMismatches(types, names[..i], conv, style)
            + Mismatches("field", SortedKeys(types[names[i]].fields.Keys), conv, style)
  {
    assert names[..i + 1][..i] == names[..i];
  }

  /** The walk over the types named in `names`, in that order: each type's
      field names are linted, and in autofix mode the type is replaced by its
      renamed copy. */
  method LintTypeFields(types0: map<string, Type>, names: seq<string>, conv: Converter, style: Case, autofix: bool)
      returns (types: map<string, Type>, errors: seq<string>)
    requires forall j :: 0 <= j < |names| ==> names[j] in types0
    requires forall a, b :: 0 <= a < b < |names| ==> names[a] != names[b]
    ensures autofix ==> types == FieldsFixedSoFar(types0, names, conv, style) && errors == []
    ensures !autofix ==> types == types0 && errors == FieldMismatches(types0, names, conv, style)
  {
    errors := [];
    types := types0;
    for i := 0 to |names|
      invariant autofix ==> types == FieldsFixedSoFar(types0, names[..i], conv, style) && errors == []
      invariant !autofix ==> types == types0
      invariant !autofix ==> errors == FieldMismatches(types0, names[..i], conv, style)
    {
      var n := names[i];
      if autofix {
        NotBefore(names, i);
        FieldsFixedSoFarUntouched(types0, names[..i], n, conv, style);
        FieldsFixedSoFarStep(types0, names, i, conv, style);
      } else {
        FieldMismatchesStep(types0, names, i, conv, style);
      }
      var t := types[n];
      assert t == types0[n];
      var fields, errs := LintNames(t.fields, "field", conv, style, autofix);
      types := types[n := t.(fields := fields)];
      errors := errors + errs;
    }
    assert names[..|names|] == names;
  }

  /** The field rule: every type in key order, and in each type every field
      name in key order. */
  method FieldLint(config: Config, autofix: bool, conv: Converter) returns (r: Valid<Config>)
    ensures r == FieldLintSpec(config, autofix, conv)
  {
    if config.server.lint.None? {
      return Succeed(config);
    }
    var style := TransformTextCase(config.server.lint.value.fieldLint.GetOr(CamelCase));
    assert style == StyleOf(config.server.lint.value, FieldRule);
    var names := SortedKeys(config.types.Keys);
    var types, errors := LintTypeFields(config.types, names, conv, style, autofix);
    if errors != [] {
      return Fail(Join(errors, "\n"));
    }
    if autofix {
      FieldsFixedAll(config.types, names, conv, style);
    } else {
      assert config.(types := types) == config;
    }
    r := Succeed(config.(types := types));
  }

  // ----------------------------------------------------------------- types

  /** What the type rule returns: the type names are walked on a snapshot of
      the types map, renaming entries of the live map in autofix mode. */
  function TypeLintSpec(config: Config, autofix: bool, conv: Converter): Valid<Config>
  {
    match config.server.lint
    case None => Succeed(config)
    case Some(l) =>
      var style := StyleOf(l, TypeRule);
      var names := SortedKeys(config.types.Keys);
      if autofix then
        Succeed(config.(types := RenameAll(config.types, names, conv, style)))
      else
        var errors := Mismatches("type", names, conv, style);
        if errors == [] then Succeed(config) else Fail(Join(errors, "\n"))
  }

  method TypeLint(config: Config, autofix: bool, conv: Converter) returns (r: Valid<Config>)
    ensures r == TypeLintSpec(config, autofix, conv)
  {
    if config.server.lint.None? {
      return Succeed(config);
    }
    var style := TransformTextCase(config.server.lint.value.typeLint.GetOr(PascalCase));
    assert style == StyleOf(config.server.lint.value, TypeRule);
    var types, errors := LintNames(config.types, "type", conv, style, autofix);
    if errors != [] {
      return Fail(Join(errors, "\n"));
    }
    if !autofix {
      assert config.(types := types) == config;
    }
    r := Succeed(config.(types := types));
  }

  // ----------------------------------------------------------------- enums

  /** What the enum rule returns: like the type rule on the enums map, except
      that the diagnostics of report mode are dropped and the rule always
      succeeds. */
  function EnumLintSpec(config: Config, autofix: bool, conv: Converter): Valid<Config>
  {
    match config.server.lint
    case None => Succeed(config)
    case Some(l) =>
      var style := StyleOf(l, EnumRule);
      if autofix then
        Succeed(config.(enums := RenameAll(config.enums, SortedKeys(config.enums.Keys), conv, style)))
      else
        Succeed(config)
  }

  method EnumLint(config: Config, autofix: bool, conv: Converter) returns (r: Valid<Config>)
    ensures r == EnumLintSpec(config, autofix, conv)
  {
    if config.server.lint.None? {
      return Succeed(config);
    }
    var style := TransformTextCase(config.server.lint.value.enumLint.GetOr(PascalCase));
    assert style == StyleOf(config.server.lint.value, EnumRule);
    var enums, errors := LintNames(config.enums, "enum", conv, style, autofix);
    if !autofix {
      assert config.(enums := enums) == config;
    }
    r := Succeed(config.(enums := enums));
  }

  // ---------------------------------------------------------- enum values

  /** The variant as the autofix walk leaves it: renamed to the conversion of
      its name, everything else kept. */
  function FixVariant(v: Variant, conv: Converter, style: Case): Variant
  {
    v.(name := conv(v.name, style))
  }

  /** The variant set an autofix walk collects. Two variants whose renamed
      forms coincide become one element. */
  function RenamedVariants(vs: set<Variant>, conv: Converter, style: Case): set<Variant>
  {
    set v | v in vs :: FixVariant(v, conv, style)
  }

  /** The variant diagnostics for one enum, in walk order. */
  function VariantMismatches(vs: seq<Variant>, conv: Converter, style: Case): seq<string>
    decreases |vs|
  {
    if vs == [] then []
    else
      var v := vs[|vs| - 1];
      VariantMismatches(vs[..|vs| - 1], conv, style)
        + (if conv(v.name, style) != v.name then [Message("enum variant", v.name, conv(v.name, style))] else [])
  }

  /** What the walk collects for one variant. */
  function Collect(v: Variant, conv: Converter, style: Case, autofix: bool): Variant
  {
    if autofix then FixVariant(v, conv, style) else v
  }

  /** The set collected from the variants walked so far. */
  ghost function Collected(vs: seq<Variant>, conv: Converter, style: Case, autofix: bool): (r: set<Variant>)
    ensures forall v :: v in vs ==> Collect(v, conv, style, autofix) in r
    ensures forall w :: w in r ==> exists v :: v in vs && w == Collect(v, conv, style, autofix)
    decreases |vs|
  {
    if vs == [] then {}
    else
      var front := vs[..|vs| - 1];
      assert forall v :: v in vs ==> v in front || v == vs[|vs| - 1];
      assert forall v :: v in front ==> v in vs;
      Collected(front, conv, style, autofix) + {Collect(vs[|vs| - 1], conv, style, autofix)}
  }

  lemma CollectedAll(vs: seq<Variant>, s: set<Variant>, conv: Converter, style: Case, autofix: bool)
    requires forall v :: v in vs <==> v in s
    ensures Collected(vs, conv, style, autofix) == if autofix then RenamedVariants(s, conv, style) else s
  {
  }

  lemma VariantStep(vs: seq<Variant>, i: nat, conv: Converter, style: Case, autofix: bool)
    requires i < |vs|
    ensures Collected(vs[..i + 1], conv, style, autofix)
         == Collected(vs[..i], conv, style, autofix) + {Collect(vs[i], conv, style, autofix)}
    ensures VariantMismatches(vs[..i + 1], conv, style)
         == VariantMismatches(vs[..i], conv, style)
            + (if conv(vs[i].name, style) != vs[i].name then [Message("enum variant", vs[i].name, conv(vs[i].name, style))] else [])
  {
    assert vs[..i + 1][..i] == vs[..i];
  }

  /** The walk over the variants of one enum, in variant order: the new
      variant set, and the diagnostics in report mode. */
  method LintVariants(variants: set<Variant>, conv: Converter, style: Case, autofix: bool)
      returns (updated: set<Variant>, errors: seq<string>)
    ensures updated == if autofix then RenamedVariants(variants, conv, style) else variants
    ensures errors == if autofix then [] else VariantMismatches(SortedVariants(variants), conv, style)
  {
    var vs := SortedVariants(variants);
    updated, errors := {}, [];
    for i := 0 to |vs|
      invariant updated == Collected(vs[..i], conv, style, autofix)
      invariant autofix ==> errors == []
      invariant !autofix ==> errors == VariantMismatches(vs[..i], conv, style)
    {
      var v := vs[i];
      var caseName := conv(v.name, style);
      VariantStep(vs, i, conv, style, autofix);
      if caseName != v.name {
        if autofix {
          updated := updated + {v.(name := caseName)};
        } else {
          errors := errors + [Message("enum variant", v.name, caseName)];
          updated := updated + {v};
        }
      } else {
        updated := updated + {v};
      }
    }
    assert vs[..|vs|] == vs;
    CollectedAll(vs, variants, conv, style, autofix);
  }

  /** An enum after the autofix walk over its variants. */
  function FixEnum(e: Enum, conv: Converter, style: Case): Enum
  {
    e.(variants := RenamedVariants(e.variants, conv, style))
  }

  /** The variant diagnostics for the enums named by `names`, enum by enum. */
  function EnumValueMismatches(enums: map<string, Enum>, names: seq<string>, conv: Converter, style: Case): seq<string>
    requires forall i :: 0 <= i < |names| ==> names[i] in enums
    decreases |names|
  {
    if names == [] then []
    else
      var e := enums[names[|names| - 1]];
      EnumValueMismatches(enums, names[..|names| - 1], conv, style)
        + VariantMismatches(SortedVariants(e.variants), conv, style)
  }

  /** What the enum value rule returns. */
  function EnumValueLintSpec(config: Config, autofix: bool, conv: Converter): Valid<Config>
  {
    match config.server.lint
    case None => Succeed(config)
    case Some(l) =>
      var style := StyleOf(l, EnumValueRule);
      if autofix then
        Succeed(config.(enums := map n | n in config.enums :: FixEnum(config.enums[n], conv, style)))
      else
        var errors := EnumValueMismatches(config.enums, SortedKeys(config.enums.Keys), conv, style);
        if errors == [] then Succeed(config) else Fail(Join(errors, "\n"))
  }

  /** The enums map once the autofix walk has replaced the enums named in
      `done`, one after another. */
  ghost function VariantsFixedSoFar(enums: map<string, Enum>, done: seq<string>, conv: Converter, style: Case): map<string, Enum>
    decreases |done|
  {
    if done == [] then enums
    else
      var n := done[|done| - 1];
      var prior := VariantsFixedSoFar(enums, done[..|done| - 1], conv, style);
      if n in enums then prior[n := FixEnum(enums[n], conv, style)] else prior
  }

  lemma {:induction false} VariantsFixedSoFarAt(enums: map<string, Enum>, done: seq<string>, conv: Converter, style: Case)
    ensures VariantsFixedSoFar(enums, done, conv, style).Keys == enums.Keys
    ensures forall n :: n in enums ==>
              VariantsFixedSoFar(enums, done, conv, style)[n] == if n in done then FixEnum(enums[n], conv, style) else enums[n]
    decreases |done|
  {
    if done != [] {
      var front := done[..|done| - 1];
      VariantsFixedSoFarAt(enums, front, conv, style);
      assert done == front + [done[|done| - 1]];
    }
  }

  lemma VariantsFixedAll(enums: map<string, Enum>, names: seq<string>, conv: Converter, style: Case)
    requires forall n :: n in enums ==> n in names
    ensures VariantsFixedSoFar(enums, names, conv, style) == map n | n in enums :: FixEnum(enums[n], conv, style)
  {
    VariantsFixedSoFarAt(enums, names, conv, style);
  }

  lemma VariantsFixedSoFarStep(enums: map<string, Enum>, names: seq<string>, i: nat, conv: Converter, style: Case)
    requires i < |names| && names[i] in enums
    ensures VariantsFixedSoFar(enums, names[..i + 1], conv, style)
         == VariantsFixedSoFar(enums, names[..i], conv, style)[names[i] := FixEnum(enums[names[i]], conv, style)]
  {
    assert names[..i + 1][..i] == names[..i];
  }

  lemma EnumValueMismatchesStep(enums: map<string, Enum>, names: seq<string>, i: nat, conv: Converter, style: Case)
    requires i < |names|
    requires forall j :: 0 <= j < |names| ==> names[j] in enums
    ensures EnumValueMismatches(enums, names[..i + 1], conv, style)
         == EnumValueMismatches(enums, names[..i], conv, style)
            + VariantMismatches(SortedVariants(enums[names[i]].variants), conv, style)
  {
    assert names[..i + 1][..i] == names[..i];
  }

  /** The walk over the enums named in `names`: each enum of the snapshot
      `enums0` gets its walked variant set and is put back under its name. */
  method LintEnumVariants(enums0: map<string, Enum>, names: seq<string>, conv: Converter, style: Case, autofix: bool)
      returns (enums: map<string, Enum>, errors: seq<string>)
    requires forall j :: 0 <= j < |names| ==> names[j] in enums0
    ensures autofix ==> enums == VariantsFixedSoFar(enums0, names, conv, style) && errors == []
    ensures !autofix ==> enums == enums0 && errors == EnumValueMismatches(enums0, names, conv, style)
  {
    enums, errors := enums0, [];
    for i := 0 to |names|
      invariant autofix ==> enums == VariantsFixedSoFar(enums0, names[..i], conv, style) && errors == []
      invariant !autofix ==> enums == enums0
      invariant !autofix ==> errors == EnumValueMismatches(enums0, names[..i], conv, style)
    {
      var n := names[i];
      var e := enums0[n];
      var updated, errs := LintVariants(e.variants, conv, style, autofix);
      if autofix {
        VariantsFixedSoFarStep(enums0, names, i, conv, style);
        assert (enums - {n})[n := e.(variants := updated)] == enums[n := FixEnum(e, conv, style)];
      } else {
        EnumValueMismatchesStep(enums0, names, i, conv, style);
        assert (enums - {n})[n := e.(variants := updated)] == enums0;
      }
      errors := errors + errs;
      enums := (enums - {n})[n := e.(variants := updated)];
    }
    assert names[..|names|] == names;
  }

  /** The enum value rule: every enum in key order, and in each enum every
      variant in variant order. */
  method EnumValueLint(config: Config, autofix: bool, conv: Converter) returns (r: Valid<Config>)
    ensures r == EnumValueLintSpec(config, autofix, conv)
  {
    if config.server.lint.None? {
      return Succeed(config);
    }
    var style := TransformTextCase(config.server.lint.value.enumValueLint.GetOr(AllCaps));
    assert style == StyleOf(config.server.lint.value, EnumValueRule);
    var names := SortedKeys(config.enums.Keys);
    var enums, errors := LintEnumVariants(config.enums, names, conv, style, autofix);
    if errors != [] {
      return Fail(Join(errors, "\n"));
    }
    if autofix {
      VariantsFixedAll(config.enums, names, conv, style);
    } else {
      assert config.(enums := enums) == config;
    }
    r := Succeed(config.(enums := enums));
  }
}
