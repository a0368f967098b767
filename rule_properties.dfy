/** What each naming rule guarantees: no effect without settings, the exact
    diagnostics of report mode, and what an autofix walk renames and what it
    leaves alone. */
module RuleProperties {
  import opened Validation
  import opened Ordering
  import opened ConfigModel
  import opened NameWalk
  import opened LintRules

  /** `lines` holds a diagnostic for every name in `bad`, and nothing else. */
  ghost predicate Reports(lines: seq<string>, category: string, bad: set<string>, conv: Converter, style: Case)
  {
    && (forall k :: k in bad ==> Message(category, k, conv(k, style)) in lines)
    && (forall line :: line in lines ==> exists k :: k in bad && line == Message(category, k, conv(k, style)))
  }

  /** The names of `m` that differ from their conversion. */
  ghost function BadKeys<V>(m: map<string, V>, conv: Converter, style: Case): set<string>
  {
    set k | k in m && conv(k, style) != k
  }

  lemma ReportsConcat(a: seq<string>, b: seq<string>, category: string, A: set<string>, B: set<string>,
                      conv: Converter, style: Case)
    requires Reports(a, category, A, conv, style) && Reports(b, category, B, conv, style)
    ensures Reports(a + b, category, A + B, conv, style)
  {
    forall line | line in a + b
      ensures exists k :: k in A + B && line == Message(category, k, conv(k, style))
    {
      if line in a {
        var k :| k in A && line == Message(category, k, conv(k, style));
      } else {
        var k :| k in B && line == Message(category, k, conv(k, style));
      }
    }
  }

  /** A report is empty exactly when there is nothing to report. */
  lemma ReportsEmpty(lines: seq<string>, category: string, bad: set<string>, conv: Converter, style: Case)
    requires Reports(lines, category, bad, conv, style)
    ensures lines == [] <==> bad == {}
  {
    if bad != {} {
      var k :| k in bad;
      assert Message(category, k, conv(k, style)) in lines;
    }
    if lines != [] {
      assert lines[0] in lines;
    }
  }

  /** The report walk over the key order of a map reports exactly its
      non-conforming names. */
  lemma MismatchesReport<V>(category: string, m: map<string, V>, conv: Converter, style: Case)
    ensures Reports(Mismatches(category, SortedKeys(m.Keys), conv, style), category, BadKeys(m, conv, style), conv, style)
  {
    var keys := SortedKeys(m.Keys);
    MismatchesExactly(category, keys, conv, style);
    forall k | k in BadKeys(m, conv, style)
      ensures Message(category, k, conv(k, style)) in Mismatches(category, keys, conv, style)
    {
      var i :| 0 <= i < |keys| && keys[i] == k;
    }
  }

  /** No line holds a newline. */
  ghost predicate OneLineEach(lines: seq<string>)
  {
    forall i :: 0 <= i < |lines| ==> '\n' !in lines[i]
  }

  lemma OneLineConcat(a: seq<string>, b: seq<string>)
    requires OneLineEach(a) && OneLineEach(b)
    ensures OneLineEach(a + b)
  {
    forall i | 0 <= i < |a + b| ensures '\n' !in (a + b)[i] {
      if i >= |a| {
        assert (a + b)[i] == b[i - |a|];
      }
    }
  }

  /** The report walk over names that, like their conversions, hold no
      newline produces diagnostics of one line each. */
  lemma {:induction false} MismatchesOneLine(category: string, keys: seq<string>, conv: Converter, style: Case)
    requires '\n' !in category
    requires forall i :: 0 <= i < |keys| ==> '\n' !in keys[i] && '\n' !in conv(keys[i], style)
    ensures OneLineEach(Mismatches(category, keys, conv, style))
    decreases |keys|
  {
    if keys != [] {
      var n := |keys| - 1;
      var name := keys[n];
      MismatchesOneLine(category, keys[..n], conv, style);
      var last := if conv(name, style) != name then [Message(category, name, conv(name, style))] else [];
      assert OneLineEach(last);
      OneLineConcat(Mismatches(category, keys[..n], conv, style), last);
    }
  }

  /** No settings block: every rule succeeds with its input, in both modes. */
  lemma RulesWithoutSettings(config: Config, autofix: bool, conv: Converter)
    requires config.server.lint.None?
    ensures FieldLintSpec(config, autofix, conv) == Succeed(config)
    ensures TypeLintSpec(config, autofix, conv) == Succeed(config)
    ensures EnumLintSpec(config, autofix, conv) == Succeed(config)
    ensures EnumValueLintSpec(config, autofix, conv) == Succeed(config)
  {
  }

  // ---------------------------------------------------------------- fields

  /** The field names, over all types named in `names`, that differ from
      their conversion. */
  ghost function BadFields(types: map<string, Type>, names: seq<string>, conv: Converter, style: Case): set<string>
    requires forall i :: 0 <= i < |names| ==> names[i] in types
    decreases |names|
  {
    if names == [] then {}
    else BadFields(types, names[..|names| - 1], conv, style) + BadKeys(types[names[|names| - 1]].fields, conv, style)
  }

  lemma {:induction false} FieldMismatchesReport(types: map<string, Type>, names: seq<string>, conv: Converter, style: Case)
    requires forall i :: 0 <= i < |names| ==> names[i] in types
    ensures Reports(FieldMismatches(types, names, conv, style), "field", BadFields(types, names, conv, style), conv, style)
    decreases |names|
  {
    if names != [] {
      var front := names[..|names| - 1];
      var fields := types[names[|names| - 1]].fields;
      FieldMismatchesReport(types, front, conv, style);
      MismatchesReport("field", fields, conv, style);
      ReportsConcat(FieldMismatches(types, front, conv, style), Mismatches("field", SortedKeys(fields.Keys), conv, style),
                    "field", BadFields(types, front, conv, style), BadKeys(fields, conv, style), conv, style);
    }
  }

  lemma {:induction false} BadFieldsMembers(types: map<string, Type>, names: seq<string>, conv: Converter, style: Case)
    requires forall i :: 0 <= i < |names| ==> names[i] in types
    ensures forall k :: k in BadFields(types, names, conv, style) <==>
              exists i :: 0 <= i < |names| && k in types[names[i]].fields && conv(k, style) != k
    decreases |names|
  {
    if names != [] {
      var n := |names| - 1;
      var front := names[..n];
      BadFieldsMembers(types, front, conv, style);
      forall k ensures k in BadFields(types, names, conv, style) <==>
                      exists i :: 0 <= i < |names| && k in types[names[i]].fields && conv(k, style) != k
      {
        if exists i :: 0 <= i < |names| && k in types[names[i]].fields && conv(k, style) != k {
          var i :| 0 <= i < |names| && k in types[names[i]].fields && conv(k, style) != k;
          if i < n {
            assert front[i] == names[i];
          }
        }
        if k in BadFields(types, front, conv, style) {
          var i :| 0 <= i < n && k in types[front[i]].fields && conv(k, style) != k;
          assert names[i] == front[i];
        }
      }
    }
  }

  /** Every field name, over all types, that differs from its conversion. */
  ghost function AllBadFields(types: map<string, Type>, conv: Converter, style: Case): set<string>
  {
    set n, k | n in types && k in types[n].fields && conv(k, style) != k :: k
  }

  lemma BadFieldsAll(types: map<string, Type>, conv: Converter, style: Case)
    ensures BadFields(types, SortedKeys(types.Keys), conv, style) == AllBadFields(types, conv, style)
  {
    var names := SortedKeys(types.Keys);
    BadFieldsMembers(types, names, conv, style);
    forall k | k in AllBadFields(types, conv, style) ensures k in BadFields(types, names, conv, style) {
      var n :| n in types && k in types[n].fields && conv(k, style) != k;
      var i :| 0 <= i < |names| && names[i] == n;
    }
  }

  /** Report mode of the field rule: it fails exactly when some field of some
      type differs from its conversion, with one line per such field name and
      nothing else, joined by newlines; success returns the input unchanged. */
  lemma FieldLintReport(config: Config, conv: Converter)
    requires config.server.lint.Some?
    ensures var style := StyleOf(config.server.lint.value, FieldRule);
      var r := FieldLintSpec(config, false, conv);
      && (r.Fail? <==> AllBadFields(config.types, conv, style) != {})
      && (r.Succeed? ==> r.value == config)
      && (r.Fail? ==> exists lines :: r.message == Join(lines, "\n") && Reports(lines, "field", AllBadFields(config.types, conv, style), conv, style))
  {
    var style := StyleOf(config.server.lint.value, FieldRule);
    var names := SortedKeys(config.types.Keys);
    var lines := FieldMismatches(config.types, names, conv, style);
    FieldMismatchesReport(config.types, names, conv, style);
    BadFieldsAll(config.types, conv, style);
    ReportsEmpty(lines, "field", AllBadFields(config.types, conv, style), conv, style);
  }

  /** The field diagnostics, joined with newlines and cut again, come back
      unchanged when no field name or conversion holds a newline. */
  lemma {:induction false} FieldMismatchesOneLine(types: map<string, Type>, names: seq<string>, conv: Converter, style: Case)
    requires forall i :: 0 <= i < |names| ==> names[i] in types
    requires forall n, k :: n in types && k in types[n].fields ==> '\n' !in k && '\n' !in conv(k, style)
    ensures OneLineEach(FieldMismatches(types, names, conv, style))
    decreases |names|
  {
    if names != [] {
      var front := names[..|names| - 1];
      var fields := types[names[|names| - 1]].fields;
      var keys := SortedKeys(fields.Keys);
      FieldMismatchesOneLine(types, front, conv, style);
      assert forall i :: 0 <= i < |keys| ==> keys[i] in fields;
      MismatchesOneLine("field", keys, conv, style);
      OneLineConcat(FieldMismatches(types, front, conv, style), Mismatches("field", keys, conv, style));
    }
  }

  /** The field rule's failure message, cut at its newlines, is the field
      walk's diagnostics in walk order, one per line, when no field name or
      conversion holds a newline. */
  lemma FieldLintMessage(config: Config, conv: Converter)
    requires config.server.lint.Some?
    requires var style := StyleOf(config.server.lint.value, FieldRule);
      forall n, k :: n in config.types && k in config.types[n].fields ==> '\n' !in k && '\n' !in conv(k, style)
    ensures var r := FieldLintSpec(config, false, conv);
      r.Fail? ==> SplitLines(r.message) == FieldMismatches(config.types, SortedKeys(config.types.Keys), conv, StyleOf(config.server.lint.value, FieldRule))
  {
    var style := StyleOf(config.server.lint.value, FieldRule);
    var lines := FieldMismatches(config.types, SortedKeys(config.types.Keys), conv, style);
    if lines != [] {
      FieldMismatchesOneLine(config.types, SortedKeys(config.types.Keys), conv, style);
      SplitJoin(lines);
    }
  }

  /** Autofix mode never fails, whatever the names and the conversion. */
  lemma AutofixNeverFails(config: Config, conv: Converter)
    ensures FieldLintSpec(config, true, conv).Succeed?
    ensures TypeLintSpec(config, true, conv).Succeed?
    ensures EnumLintSpec(config, true, conv).Succeed?
    ensures EnumValueLintSpec(config, true, conv).Succeed?
  {
  }

  /** The autofix walk over a type's fields: the type's own data is kept,
      the field names become exactly the conversions of the old names, all
      of them conform, and each carries the data of a field it was renamed
      from. */
  lemma FixFieldsFacts(t: Type, conv: Converter, style: Case)
    requires Idempotent(conv, style)
    ensures FixFields(t, conv, style).rest == t.rest
    ensures FixFields(t, conv, style).fields.Keys == set k | k in t.fields :: conv(k, style)
    ensures forall f :: f in FixFields(t, conv, style).fields ==> conv(f, style) == f
    ensures forall f :: f in FixFields(t, conv, style).fields ==>
              exists k :: k in t.fields && conv(k, style) == f && FixFields(t, conv, style).fields[f] == t.fields[k]
  {
    var keys := SortedKeys(t.fields.Keys);
    SortedKeysEnumerates(t.fields);
    AutofixWalkKeys(t.fields, keys, conv, style);
    AutofixWalkConforms(t.fields, keys, conv, style);
    AutofixWalkPayload(t.fields, keys, conv, style);
  }

  /** Autofix mode of the field rule: it succeeds; the server settings, the
      enums and the set of type names are kept; and each type keeps its own
      data while its field names become the conforming conversions of the
      old ones, each carrying the data of a field renamed to it. */
  lemma FieldLintAutofix(config: Config, conv: Converter)
    requires config.server.lint.Some?
    requires Idempotent(conv, StyleOf(config.server.lint.value, FieldRule))
    ensures var style := StyleOf(config.server.lint.value, FieldRule);
      var r := FieldLintSpec(config, true, conv);
      && r.Succeed?
      && r.value.server == config.server
      && r.value.enums == config.enums
      && r.value.types.Keys == config.types.Keys
      && (forall n :: n in config.types ==>
            && r.value.types[n].rest == config.types[n].rest
            && r.value.types[n].fields.Keys == (set k | k in config.types[n].fields :: conv(k, style))
            && (forall f :: f in r.value.types[n].fields ==>
                  && conv(f, style) == f
                  && exists k :: k in config.types[n].fields && conv(k, style) == f
                                 && r.value.types[n].fields[f] == config.types[n].fields[k]))
  {
    var style := StyleOf(config.server.lint.value, FieldRule);
    forall n | n in config.types
      ensures var t := FixFields(config.types[n], conv, style);
        && t.rest == config.types[n].rest
        && t.fields.Keys == (set k | k in config.types[n].fields :: conv(k, style))
        && (forall f :: f in t.fields ==>
              && conv(f, style) == f
              && exists k :: k in config.types[n].fields && conv(k, style) == f && t.fields[f] == config.types[n].fields[k])
    {
      FixFieldsFacts(config.types[n], conv, style);
    }
  }

  /** Without collisions among a type's field names, the autofix walk moves
      every field to its converted name with its data. */
  lemma FieldLintAutofixMoves(config: Config, conv: Converter, n: string)
    requires config.server.lint.Some?
    requires Idempotent(conv, StyleOf(config.server.lint.value, FieldRule))
    requires n in config.types
    requires var style := StyleOf(config.server.lint.value, FieldRule);
      forall a, b :: a in config.types[n].fields && b in config.types[n].fields && conv(a, style) == conv(b, style) ==> a == b
    ensures var style := StyleOf(config.server.lint.value, FieldRule);
      var fields := FieldLintSpec(config, true, conv).value.types[n].fields;
      forall k :: k in config.types[n].fields ==> conv(k, style) in fields && fields[conv(k, style)] == config.types[n].fields[k]
  {
    var style := StyleOf(config.server.lint.value, FieldRule);
    var m := config.types[n].fields;
    SortedKeysEnumerates(m);
    AutofixWalkInjective(m, SortedKeys(m.Keys), conv, style);
  }

  /** Autofix overwrites on a collision: when field `a` converts to the name
      of field `b`, which already conforms, and no other field converts to
      it, then after the walk `b` holds `a`'s data, `b`'s own data is lost,
      and `a` is gone; the other fields of the type do not matter. */
  lemma FieldCollisionOverwrites(t: Type, conv: Converter, style: Case, a: string, b: string)
    requires Idempotent(conv, style)
    requires a in t.fields && b in t.fields && a != b
    requires conv(a, style) == b
    requires forall k :: k in t.fields && conv(k, style) == b ==> k == a || k == b
    ensures b in FixFields(t, conv, style).fields && FixFields(t, conv, style).fields[b] == t.fields[a]
    ensures a !in FixFields(t, conv, style).fields
  {
    var keys := SortedKeys(t.fields.Keys);
    SortedKeysEnumerates(t.fields);
    RenameAllCollision(t.fields, keys, conv, style, a, b);
  }

  // ------------------------------------------------------- types and enums

  /** The autofix walk over a whole map in key order, with an idempotent
      conversion: the names become exactly the conversions of the old names,
      all conform, and each entry carries the data of a name renamed to it. */
  lemma AutofixWalkFacts<V>(m: map<string, V>, conv: Converter, style: Case)
    requires Idempotent(conv, style)
    ensures var r := RenameAll(m, SortedKeys(m.Keys), conv, style);
      && r.Keys == (set k | k in m :: conv(k, style))
      && (forall t :: t in r ==> conv(t, style) == t)
      && (forall t :: t in r ==> exists k :: k in m && conv(k, style) == t && r[t] == m[k])
  {
    var keys := SortedKeys(m.Keys);
    SortedKeysEnumerates(m);
    AutofixWalkKeys(m, keys, conv, style);
    AutofixWalkConforms(m, keys, conv, style);
    AutofixWalkPayload(m, keys, conv, style);
  }

  /** Report mode of the type rule: it fails exactly when some type name
      differs from its conversion, with one line per such name and nothing
      else, joined by newlines; success returns the input unchanged. */
  lemma TypeLintReport(config: Config, conv: Converter)
    requires config.server.lint.Some?
    ensures var style := StyleOf(config.server.lint.value, TypeRule);
      var r := TypeLintSpec(config, false, conv);
      && (r.Fail? <==> BadKeys(config.types, conv, style) != {})
      && (r.Succeed? ==> r.value == config)
      && (r.Fail? ==> exists lines :: r.message == Join(lines, "\n") && Reports(lines, "type", BadKeys(config.types, conv, style), conv, style))
  {
    var style := StyleOf(config.server.lint.value, TypeRule);
    var lines := Mismatches("type", SortedKeys(config.types.Keys), conv, style);
    MismatchesReport("type", config.types, conv, style);
    ReportsEmpty(lines, "type", BadKeys(config.types, conv, style), conv, style);
  }

  /** The type rule's failure message, cut at its newlines, is the type
      walk's diagnostics in key order, one per line, when no type name or
      conversion holds a newline. */
  lemma TypeLintMessage(config: Config, conv: Converter)
    requires config.server.lint.Some?
    requires var style := StyleOf(config.server.lint.value, TypeRule);
      forall n :: n in config.types ==> '\n' !in n && '\n' !in conv(n, style)
    ensures var r := TypeLintSpec(config, false, conv);
      r.Fail? ==> SplitLines(r.message) == Mismatches("type", SortedKeys(config.types.Keys), conv, StyleOf(config.server.lint.value, TypeRule))
  {
    var style := StyleOf(config.server.lint.value, TypeRule);
    var lines := Mismatches("type", SortedKeys(config.types.Keys), conv, style);
    if lines != [] {
      MismatchesOneLine("type", SortedKeys(config.types.Keys), conv, style);
      SplitJoin(lines);
    }
  }

  /** Autofix mode of the type rule: it succeeds; the server settings and the
      enums are kept; the type names become exactly the conforming
      conversions of the old names, and each type under a new name is one of
      the old types (fields and all) whose name converts to it. */
  lemma TypeLintAutofix(config: Config, conv: Converter)
    requires config.server.lint.Some?
    requires Idempotent(conv, StyleOf(config.server.lint.value, TypeRule))
    ensures var style := StyleOf(config.server.lint.value, TypeRule);
      var r := TypeLintSpec(config, true, conv);
      && r.Succeed?
      && r.value.server == config.server
      && r.value.enums == config.enums
      && r.value.types.Keys == (set n | n in config.types :: conv(n, style))
      && (forall t :: t in r.value.types ==> conv(t, style) == t)
      && (forall t :: t in r.value.types ==>
            exists n :: n in config.types && conv(n, style) == t && r.value.types[t] == config.types[n])
  {
    AutofixWalkFacts(config.types, conv, StyleOf(config.server.lint.value, TypeRule));
  }

  /** Autofix mode of the type rule, for any conversion: it succeeds, keeps
      the server settings and the enums, and only moves types: every type in
      the result is one of the input types, fields and all. */
  lemma TypeLintAutofixKeepsTypes(config: Config, conv: Converter)
    requires config.server.lint.Some?
    ensures var r := TypeLintSpec(config, true, conv);
      && r.Succeed?
      && r.value.server == config.server
      && r.value.enums == config.enums
      && (forall t :: t in r.value.types ==> exists n :: n in config.types && r.value.types[t] == config.types[n])
  {
    RenameAllValues(config.types, SortedKeys(config.types.Keys), conv, StyleOf(config.server.lint.value, TypeRule));
  }

  /** Without collisions among type names, the autofix walk moves every type
      to its converted name, unchanged. */
  lemma TypeLintAutofixMoves(config: Config, conv: Converter)
    requires config.server.lint.Some?
    requires Idempotent(conv, StyleOf(config.server.lint.value, TypeRule))
    requires var style := StyleOf(config.server.lint.value, TypeRule);
      forall a, b :: a in config.types && b in config.types && conv(a, style) == conv(b, style) ==> a == b
    ensures var style := StyleOf(config.server.lint.value, TypeRule);
      var types := TypeLintSpec(config, true, conv).value.types;
      forall n :: n in config.types ==> conv(n, style) in types && types[conv(n, style)] == config.types[n]
  {
    SortedKeysEnumerates(config.types);
    AutofixWalkInjective(config.types, SortedKeys(config.types.Keys), conv, StyleOf(config.server.lint.value, TypeRule));
  }

  /** The enum rule never fails, not even in report mode with non-conforming
      enum names; in report mode it returns its input unchanged. */
  lemma EnumLintAlwaysSucceeds(config: Config, autofix: bool, conv: Converter)
    ensures EnumLintSpec(config, autofix, conv).Succeed?
    ensures !autofix ==> EnumLintSpec(config, autofix, conv).value == config
  {
  }

  /** Autofix mode of the enum rule: the server settings and the types are
      kept; the enum names become exactly the conforming conversions of the
      old names, and each enum under a new name is one of the old enums whose
      name converts to it. */
  lemma EnumLintAutofix(config: Config, conv: Converter)
    requires config.server.lint.Some?
    requires Idempotent(conv, StyleOf(config.server.lint.value, EnumRule))
    ensures var style := StyleOf(config.server.lint.value, EnumRule);
      var r := EnumLintSpec(config, true, conv).value;
      && r.server == config.server
      && r.types == config.types
      && r.enums.Keys == (set n | n in config.enums :: conv(n, style))
      && (forall t :: t in r.enums ==> conv(t, style) == t)
      && (forall t :: t in r.enums ==> exists n :: n in config.enums && conv(n, style) == t && r.enums[t] == config.enums[n])
  {
    AutofixWalkFacts(config.enums, conv, StyleOf(config.server.lint.value, EnumRule));
  }

  // ---------------------------------------------------------- enum values

  /** The names of a variant sequence, in order. */
  function VariantNames(vs: seq<Variant>): (r: seq<string>)
    ensures |r| == |vs| && forall i :: 0 <= i < |vs| ==> r[i] == vs[i].name
  {
    seq(|vs|, i requires 0 <= i < |vs| => vs[i].name)
  }

  /** The variant diagnostics are the name diagnostics of the variant names. */
  lemma {:induction false} VariantMismatchesNames(vs: seq<Variant>, conv: Converter, style: Case)
    ensures VariantMismatches(vs, conv, style) == Mismatches("enum variant", VariantNames(vs), conv, style)
    decreases |vs|
  {
    if vs != [] {
      var front := vs[..|vs| - 1];
      VariantMismatchesNames(front, conv, style);
      assert VariantNames(vs)[..|vs| - 1] == VariantNames(front);
    }
  }

  /** The names of the variants in `vs` that differ from their conversion. */
  ghost function BadVariantNames(vs: set<Variant>, conv: Converter, style: Case): set<string>
  {
    set v | v in vs && conv(v.name, style) != v.name :: v.name
  }

  lemma VariantMismatchesReport(vs: set<Variant>, conv: Converter, style: Case)
    ensures Reports(VariantMismatches(SortedVariants(vs), conv, style), "enum variant", BadVariantNames(vs, conv, style), conv, style)
  {
    var sorted := SortedVariants(vs);
    var names := VariantNames(sorted);
    VariantMismatchesNames(sorted, conv, style);
    MismatchesExactly("enum variant", names, conv, style);
    forall k | k in BadVariantNames(vs, conv, style)
      ensures Message("enum variant", k, conv(k, style)) in Mismatches("enum variant", names, conv, style)
    {
      var v :| v in vs && conv(v.name, style) != v.name && v.name == k;
      var i :| 0 <= i < |sorted| && sorted[i] == v;
      assert names[i] == k;
    }
    forall line | line in Mismatches("enum variant", names, conv, style)
      ensures exists k :: k in BadVariantNames(vs, conv, style) && line == Message("enum variant", k, conv(k, style))
    {
      var i :| 0 <= i < |names| && conv(names[i], style) != names[i] && line == Message("enum variant", names[i], conv(names[i], style));
      assert sorted[i] in vs;
      assert names[i] in BadVariantNames(vs, conv, style);
    }
  }

  /** The variant names, over all enums named in `names`, that differ from
      their conversion. */
  ghost function BadVariants(enums: map<string, Enum>, names: seq<string>, conv: Converter, style: Case): set<string>
    requires forall i :: 0 <= i < |names| ==> names[i] in enums
    decreases |names|
  {
    if names == [] then {}
    else BadVariants(enums, names[..|names| - 1], conv, style) + BadVariantNames(enums[names[|names| - 1]].variants, conv, style)
  }

  lemma {:induction false} EnumValueMismatchesReport(enums: map<string, Enum>, names: seq<string>, conv: Converter, style: Case)
    requires forall i :: 0 <= i < |names| ==> names[i] in enums
    ensures Reports(EnumValueMismatches(enums, names, conv, style), "enum variant", BadVariants(enums, names, conv, style), conv, style)
    decreases |names|
  {
    if names != [] {
      var front := names[..|names| - 1];
      var vs := enums[names[|names| - 1]].variants;
      EnumValueMismatchesReport(enums, front, conv, style);
      VariantMismatchesReport(vs, conv, style);
      ReportsConcat(EnumValueMismatches(enums, front, conv, style), VariantMismatches(SortedVariants(vs), conv, style),
                    "enum variant", BadVariants(enums, front, conv, style), BadVariantNames(vs, conv, style), conv, style);
    }
  }

  lemma {:induction false} BadVariantsMembers(enums: map<string, Enum>, names: seq<string>, conv: Converter, style: Case)
    requires forall i :: 0 <= i < |names| ==> names[i] in enums
    ensures forall k :: k in BadVariants(enums, names, conv, style) <==>
              exists i :: 0 <= i < |names| && k in BadVariantNames(enums[names[i]].variants, conv, style)
    decreases |names|
  {
    if names != [] {
      var n := |names| - 1;
      var front := names[..n];
      BadVariantsMembers(enums, front, conv, style);
      forall k ensures k in BadVariants(enums, names, conv, style) <==>
                      exists i :: 0 <= i < |names| && k in BadVariantNames(enums[names[i]].variants, conv, style)
      {
        if exists i :: 0 <= i < |names| && k in BadVariantNames(enums[names[i]].variants, conv, style) {
          var i :| 0 <= i < |names| && k in BadVariantNames(enums[names[i]].variants, conv, style);
          if i < n {
            assert front[i] == names[i];
          }
        }
        if k in BadVariants(enums, front, conv, style) {
          var i :| 0 <= i < n && k in BadVariantNames(enums[front[i]].variants, conv, style);
          assert names[i] == front[i];
        }
      }
    }
  }

  /** Every variant name, over all enums, that differs from its conversion. */
  ghost function AllBadVariants(enums: map<string, Enum>, conv: Converter, style: Case): set<string>
  {
    set n, v | n in enums && v in enums[n].variants && conv(v.name, style) != v.name :: v.name
  }

  lemma BadVariantsAll(enums: map<string, Enum>, conv: Converter, style: Case)
    ensures BadVariants(enums, SortedKeys(enums.Keys), conv, style) == AllBadVariants(enums, conv, style)
  {
    var names := SortedKeys(enums.Keys);
    BadVariantsMembers(enums, names, conv, style);
    forall k | k in AllBadVariants(enums, conv, style) ensures k in BadVariants(enums, names, conv, style) {
      var n, v :| n in enums && v in enums[n].variants && conv(v.name, style) != v.name && v.name == k;
      var i :| 0 <= i < |names| && names[i] == n;
      assert k in BadVariantNames(enums[names[i]].variants, conv, style);
    }
    forall k | k in BadVariants(enums, names, conv, style) ensures k in AllBadVariants(enums, conv, style) {
      var i :| 0 <= i < |names| && k in BadVariantNames(enums[names[i]].variants, conv, style);
      var v :| v in enums[names[i]].variants && conv(v.name, style) != v.name && v.name == k;
    }
  }

  /** Report mode of the enum value rule: it fails exactly when some variant
      of some enum has a name that differs from its conversion, with one line
      per such name and nothing else, joined by newlines; success returns the
      input unchanged. */
  lemma EnumValueLintReport(config: Config, conv: Converter)
    requires config.server.lint.Some?
    ensures var style := StyleOf(config.server.lint.value, EnumValueRule);
      var r := EnumValueLintSpec(config, false, conv);
      && (r.Fail? <==> AllBadVariants(config.enums, conv, style) != {})
      && (r.Succeed? ==> r.value == config)
      && (r.Fail? ==> exists lines :: r.message == Join(lines, "\n") && Reports(lines, "enum variant", AllBadVariants(config.enums, conv, style), conv, style))
  {
    var style := StyleOf(config.server.lint.value, EnumValueRule);
    var names := SortedKeys(config.enums.Keys);
    var lines := EnumValueMismatches(config.enums, names, conv, style);
    EnumValueMismatchesReport(config.enums, names, conv, style);
    BadVariantsAll(config.enums, conv, style);
    ReportsEmpty(lines, "enum variant", AllBadVariants(config.enums, conv, style), conv, style);
  }

  lemma VariantMismatchesOneLine(vs: set<Variant>, conv: Converter, style: Case)
    requires forall v :: v in vs ==> '\n' !in v.name && '\n' !in conv(v.name, style)
    ensures OneLineEach(VariantMismatches(SortedVariants(vs), conv, style))
  {
    var sorted := SortedVariants(vs);
    var names := VariantNames(sorted);
    VariantMismatchesNames(sorted, conv, style);
    forall i | 0 <= i < |names| ensures '\n' !in names[i] && '\n' !in conv(names[i], style) {
      assert sorted[i] in vs;
    }
    MismatchesOneLine("enum variant", names, conv, style);
  }

  lemma {:induction false} EnumValueMismatchesOneLine(enums: map<string, Enum>, names: seq<string>, conv: Converter, style: Case)
    requires forall i :: 0 <= i < |names| ==> names[i] in enums
    requires forall n, v :: n in enums && v in enums[n].variants ==> '\n' !in v.name && '\n' !in conv(v.name, style)
    ensures OneLineEach(EnumValueMismatches(enums, names, conv, style))
    decreases |names|
  {
    if names != [] {
      var front := names[..|names| - 1];
      var vs := enums[names[|names| - 1]].variants;
      EnumValueMismatchesOneLine(enums, front, conv, style);
      VariantMismatchesOneLine(vs, conv, style);
      OneLineConcat(EnumValueMismatches(enums, front, conv, style), VariantMismatches(SortedVariants(vs), conv, style));
    }
  }

  /** The enum value rule's failure message, cut at its newlines, is the
      variant walk's diagnostics in walk order, one per line, when no variant
      name or conversion holds a newline. */
  lemma EnumValueLintMessage(config: Config, conv: Converter)
    requires config.server.lint.Some?
    requires var style := StyleOf(config.server.lint.value, EnumValueRule);
      forall n, v :: n in config.enums && v in config.enums[n].variants ==> '\n' !in v.name && '\n' !in conv(v.name, style)
    ensures var r := EnumValueLintSpec(config, false, conv);
      r.Fail? ==> SplitLines(r.message) == EnumValueMismatches(config.enums, SortedKeys(config.enums.Keys), conv, StyleOf(config.server.lint.value, EnumValueRule))
  {
    var style := StyleOf(config.server.lint.value, EnumValueRule);
    var lines := EnumValueMismatches(config.enums, SortedKeys(config.enums.Keys), conv, style);
    if lines != [] {
      EnumValueMismatchesOneLine(config.enums, SortedKeys(config.enums.Keys), conv, style);
      SplitJoin(lines);
    }
  }

  /** The variant walk of autofix mode: only names change, the result
      conforms when the conversion is idempotent, and variants whose renamed
      forms coincide merge, so the set never grows. */
  lemma RenamedVariantsFacts(vs: set<Variant>, conv: Converter, style: Case)
    ensures forall w :: w in RenamedVariants(vs, conv, style) <==>
              exists v :: v in vs && w.name == conv(v.name, style) && w.rest == v.rest
    ensures Idempotent(conv, style) ==> forall w :: w in RenamedVariants(vs, conv, style) ==> conv(w.name, style) == w.name
    ensures |RenamedVariants(vs, conv, style)| <= |vs|
  {
    ImageSize(vs, conv, style);
    if Idempotent(conv, style) {
      forall w | w in RenamedVariants(vs, conv, style) ensures conv(w.name, style) == w.name {
        var v :| v in vs && w == FixVariant(v, conv, style);
        assert conv(conv(v.name, style), style) == conv(v.name, style);
      }
    }
  }

  lemma {:induction false} ImageSize(vs: set<Variant>, conv: Converter, style: Case)
    ensures |RenamedVariants(vs, conv, style)| <= |vs|
    decreases |vs|
  {
    if vs != {} {
      var v :| v in vs;
      var rest := vs - {v};
      ImageSize(rest, conv, style);
      assert RenamedVariants(vs, conv, style) == RenamedVariants(rest, conv, style) + {FixVariant(v, conv, style)};
    }
  }

  /** Two different variants whose renamed forms coincide become one: the
      autofix walk leaves fewer variants than it found. */
  lemma VariantsMerge(vs: set<Variant>, conv: Converter, style: Case, v: Variant, w: Variant)
    requires v in vs && w in vs && v != w
    requires FixVariant(v, conv, style) == FixVariant(w, conv, style)
    ensures |RenamedVariants(vs, conv, style)| < |vs|
  {
    var rest := vs - {v};
    ImageSize(rest, conv, style);
    assert RenamedVariants(vs, conv, style) == RenamedVariants(rest, conv, style);
  }

  /** Autofix mode of the enum value rule: it succeeds; the server settings,
      the types and the enum names are kept; each enum keeps its own data and
      gets the renamed variant set. */
  lemma EnumValueLintAutofix(config: Config, conv: Converter)
    requires config.server.lint.Some?
    ensures var style := StyleOf(config.server.lint.value, EnumValueRule);
      var r := EnumValueLintSpec(config, true, conv);
      && r.Succeed?
      && r.value.server == config.server
      && r.value.types == config.types
      && r.value.enums.Keys == config.enums.Keys
      && (forall n :: n in config.enums ==>
            && r.value.enums[n].rest == config.enums[n].rest
            && r.value.enums[n].variants == RenamedVariants(config.enums[n].variants, conv, style))
  {
  }
}
