# Naming-convention lint for gateway configurations

A Dafny model of the naming-convention lint and autofix engine of the
tailcall gateway configuration (`src/core/config/lint.rs`). The model covers
the following, and proves what each piece guarantees:

- **Settings.** An optional `server.lint` block has a `default` switch, an
  `autoFix` switch and four optional naming styles (`TextCase`). Each style
  maps to a case of the conversion library (`transform_text_case`).
- **Four rules.** Each rule walks one namespace in key order:
  - field names inside every type (`field_lint`);
  - type names (`type_lint`);
  - enum names (`enum_lint`);
  - variant names inside every enum (`enum_value_lint`).

  In report mode a rule collects one `lint failed for <category> <name>,
  expected <converted>` line per name that differs from its conversion. It
  fails with those lines joined by newlines. In autofix mode it moves each
  such entry to the converted name.
- **The pass** (`lint`). It runs the enabled rules in the order field, type,
  enum, enum value. Each rule gets the previous rule's output, and the pass
  stops at the first failure.

The model is split into modules:

| module | file | what it holds |
|---|---|---|
| `Validation` | `validation.dfy` | `Option` with `unwrap_or`, the rule verdict `Valid`, the pass result `Result`, `to_result`, and newline joining with its inverse |
| `Ordering` | `ordering.dfy` | the iteration order of ordered maps and sets: the minimum-first sorting of a finite set, and lexicographic string order |
| `ConfigModel` | `config.dfy` | `TextCase`, the conversion cases, the configuration data, the conversion routine as a parameter, and the variant order |
| `NameWalk` | `namewalk.dfy` | the check-or-rename walk that the rules share, with its specification functions and lemmas |
| `LintRules` | `rules.dfy` | the four rules as methods over a snapshot and a live copy, each proved equal to a specification function |
| `RuleProperties` | `rule_properties.dfy` | what each rule guarantees in report mode and in autofix mode |
| `LintPipeline` | `lint.dfy` | the pass itself |
| `LintProperties` | `lint_properties.dfy` | what the pass guarantees, including convergence of autofix |

Case conversion comes from an external library whose code is not part of
this model. Every operation therefore takes the conversion routine as a
parameter `conv: Converter`. Where a property needs the routine to be
idempotent, that is stated as an explicit precondition `Idempotent(conv, style)`.

The configuration's maps are walked in ascending key order, as an ordered map
is. The variant set is walked in ascending variant order. Strings are
compared character by character. For Rust strings this is the same order as
comparing their UTF-8 bytes.

The model follows the code in these respects:

- A rename is a plain map insert. An entry already present under the target
  name is overwritten, and there is no collision diagnostic
  (`RuleProperties.FieldCollisionOverwrites`).
- The enum rule collects diagnostics but always succeeds
  (`RuleProperties.EnumLintAlwaysSucceeds`).
- `AllCaps` selects the library's upper case, not its screaming-snake case
  (`ConfigModel.TransformTextCaseBijective`).
- Renaming happens during a single walk over a snapshot of the keys, with
  updates to a live copy. It is not a separate collect-then-apply pass.

## Model

| member | source | states |
|---|---|---|
| ConfigModel.TransformTextCaseBijective | src/core/config/lint.rs:28-36 | the five styles select five distinct conversion cases, every case is selected by exactly one style, and AllCaps selects a different case from ScreamingSnakeCase |
| LintRules.EffectiveStyles | src/core/config/lint.rs:76-176 | without an explicit style a field is checked against camelCase, a type and an enum against PascalCase and a variant against the upper case; an explicit style always wins |
| Validation.ToResult | src/core/config/lint.rs:58 | a rule's success becomes an `Ok` with the same configuration, and its failure becomes an error with the same message |
| Validation.SplitJoin | src/core/config/lint.rs:103-105 | a failure message joined with newlines from newline-free lines splits back into exactly those lines, in order |
| Ordering.SortedKeys | src/core/config/lint.rs:78 | the names of a map in walk order: each name exactly once, in strictly ascending order |
| Ordering.SortedBy | src/core/config/lint.rs:115 | the elements of a finite set, each once, in strictly ascending order for any strict total order |
| ConfigModel.SortedVariants | src/core/config/lint.rs:183-186 | the variants of an enum in the order its ordered set visits them: each once, ascending by name and then by the rest |
| NameWalk.Rename | src/core/config/lint.rs:118-126 | removing the entry under a name and inserting its data under the target: the key set loses the name and gains the target, the target holds the moved data, every other entry is kept, and an absent name changes nothing |
| NameWalk.LintNames | src/core/config/lint.rs:115-136 | the shared walk over a snapshot of the keys, updating a live copy: in autofix mode the live map is the rename walk over the names in key order and no error is collected; in report mode the map is unchanged and the errors are the report walk's lines |
| NameWalk.Mismatches | src/core/config/lint.rs:128-134 | the report walk produces at most one line per name, and no line at all exactly when every name equals its conversion |
| NameWalk.MismatchesCount | src/core/config/lint.rs:94-99 | the number of report lines is the number of names that differ from their conversion |
| NameWalk.MismatchesExactly | src/core/config/lint.rs:94-99 | every differing name has its `lint failed for <category> <name>, expected <converted>` line, and every line is one of those |
| NameWalk.RenameAllNoop | src/core/config/lint.rs:81 | when every walked name equals its conversion, the autofix walk changes nothing |
| NameWalk.RenameAllKeys | src/core/config/lint.rs:82-92 | after walking some of the names, the key set is the conversions of the walked names plus the names not yet walked |
| NameWalk.RenameAllKeepsUnwalked | src/core/config/lint.rs:82-92 | a differing name that has not been walked yet still holds its original data |
| NameWalk.RenameAllPayload | src/core/config/lint.rs:83-92 | every entry after part of the walk holds the data of an original name that is either the entry's own name or converts to it |
| NameWalk.RenameAllInjective | src/core/config/lint.rs:83-92 | without collisions, each walked name's data sits under its conversion and each unwalked name keeps its own |
| NameWalk.RenameAllValues | src/core/config/lint.rs:118-126 | for any conversion, every entry the walk leaves holds the data of some original entry |
| NameWalk.AutofixWalkKeys | src/core/config/lint.rs:116-127 | after the full autofix walk the names are exactly the conversions of the original names |
| NameWalk.AutofixWalkConforms | src/core/config/lint.rs:110 | after the full autofix walk every name equals its own conversion, as the doc comment promises |
| NameWalk.AutofixWalkPayload | src/core/config/lint.rs:118-126 | after the full walk each entry carries the unchanged data of an original name that converts to it |
| NameWalk.AutofixWalkInjective | src/core/config/lint.rs:118-126 | without collisions every original entry is found, with its data, under its converted name |
| LintRules.FieldMismatchesEmpty | src/core/config/lint.rs:78-105 | the field walk reports nothing exactly when every field of every walked type equals its conversion |
| LintRules.LintTypeFields | src/core/config/lint.rs:78-102 | the walk over the types in key order: in autofix mode each walked type has its field names fixed, in report mode the types are kept and the lines are those of each type's fields in turn |
| LintRules.FieldLint | src/core/config/lint.rs:74-108 | the field rule computes its specification: success with the input when there are no settings; the fixed types in autofix mode; in report mode a failure with the joined lines, or the input unchanged |
| LintRules.TypeLint | src/core/config/lint.rs:111-142 | the type rule computes its specification: the rename walk over the type names on a snapshot, or the report lines joined into one failure |
| LintRules.EnumLint | src/core/config/lint.rs:144-172 | the enum rule computes its specification: the rename walk over the enum names in autofix mode, and the input unchanged otherwise, with its collected lines dropped |
| LintRules.LintVariants | src/core/config/lint.rs:183-208 | the walk over one enum's variants in set order: autofix collects every variant with its name converted, report mode keeps the set and lists one line per differing variant name |
| LintRules.CollectedAll | src/core/config/lint.rs:183-208 | the set collected from the whole variant walk is the renamed variant set in autofix mode and the original set otherwise |
| LintRules.LintEnumVariants | src/core/config/lint.rs:178-213 | the walk over the enums of the snapshot: each enum is removed and re-inserted under its own name with its walked variant set |
| LintRules.EnumValueLint | src/core/config/lint.rs:174-219 | the enum value rule computes its specification: every enum with its renamed variants in autofix mode; in report mode the joined lines as a failure, or the input unchanged |
| RuleProperties.RulesWithoutSettings | src/core/config/lint.rs:75-175 | without a settings block every rule succeeds with its input, in both modes |
| RuleProperties.MismatchesReport | src/core/config/lint.rs:128-134 | the report walk over a map lists exactly its non-conforming names |
| RuleProperties.ReportsEmpty | src/core/config/lint.rs:103 | a report is empty exactly when there is nothing to report, so a rule fails exactly when a name differs |
| RuleProperties.FieldMismatchesReport | src/core/config/lint.rs:94-99 | the field lines of a walk over several types report exactly the non-conforming field names of those types |
| RuleProperties.FieldLintMessage | src/core/config/lint.rs:94-107 | when no field name or its conversion holds a newline, the failure message cut at newlines is exactly the field diagnostics, types in key order and then fields in key order |
| RuleProperties.FieldLintReport | src/core/config/lint.rs:94-107 | report mode of the field rule fails exactly when some field of some type differs from its conversion, the message is newline-joined lines naming exactly those fields, and success returns the input unchanged |
| RuleProperties.AutofixNeverFails | src/core/config/lint.rs:82-94 | in autofix mode no rule fails, whatever the names and the conversion |
| RuleProperties.FixFieldsFacts | src/core/config/lint.rs:79-92 | fixing a type's fields keeps the type's own data; its field names become exactly the conforming conversions of the old names, each carrying the data of a field renamed to it |
| RuleProperties.FieldLintAutofix | src/core/config/lint.rs:74-108 | autofix mode of the field rule succeeds, keeps the server settings, the enums and the type names, and fixes every type's fields as above |
| RuleProperties.FieldLintAutofixMoves | src/core/config/lint.rs:83-92 | without collisions among a type's field names, every field moves to its converted name with its data |
| RuleProperties.FieldCollisionOverwrites | src/core/config/lint.rs:89-92 | in a type with any other fields, when field `a` converts to the name of field `b` and no other field converts to it, `b` ends up holding `a`'s data in either walk order, `b`'s own data is lost, and `a` is gone |
| NameWalk.RenameAllCollision | src/core/config/lint.rs:83-92 | once the walk has visited a name whose conversion collides with an existing name, that name holds the visited entry's data and the visited name is gone |
| RuleProperties.AutofixWalkFacts | src/core/config/lint.rs:116-127 | the full autofix walk over a map gives the conforming conversions of the old names as keys, each holding the data of a name renamed to it |
| RuleProperties.TypeLintReport | src/core/config/lint.rs:128-139 | report mode of the type rule fails exactly when some type name differs from its conversion, with lines naming exactly those types, and success returns the input unchanged |
| RuleProperties.TypeLintMessage | src/core/config/lint.rs:128-139 | when no type name or its conversion holds a newline, the failure message cut at newlines is exactly the type diagnostics in key order |
| RuleProperties.TypeLintAutofix | src/core/config/lint.rs:115-127 | autofix mode of the type rule keeps the server settings and the enums; the type names become the conforming conversions, and each type under a new name is an unchanged old type, fields and all, whose name converts to it |
| RuleProperties.TypeLintAutofixKeepsTypes | src/core/config/lint.rs:115-127 | for any conversion, autofix mode of the type rule succeeds, keeps the server settings and the enums, and every resulting type is one of the input types with its fields unchanged |
| RuleProperties.TypeLintAutofixMoves | src/core/config/lint.rs:118-126 | without collisions among type names every type moves, unchanged, to its converted name |
| RuleProperties.EnumLintAlwaysSucceeds | src/core/config/lint.rs:161-171 | the enum rule never fails, even in report mode with non-conforming names, and in report mode it returns its input unchanged |
| RuleProperties.EnumLintAutofix | src/core/config/lint.rs:148-160 | autofix mode of the enum rule keeps the server settings and the types; the enum names become the conforming conversions, and each enum under a new name is an old enum whose name converts to it |
| RuleProperties.VariantMismatchesNames | src/core/config/lint.rs:197-201 | the variant lines are the name lines of the variant names, in variant order |
| RuleProperties.VariantMismatchesReport | src/core/config/lint.rs:186-207 | the walk over one enum's variants reports exactly its non-conforming variant names |
| RuleProperties.EnumValueMismatchesReport | src/core/config/lint.rs:182-213 | the walk over several enums reports exactly their non-conforming variant names |
| RuleProperties.EnumValueLintMessage | src/core/config/lint.rs:197-218 | when no variant name or its conversion holds a newline, the failure message cut at newlines is exactly the variant diagnostics, enums in key order and then variants in set order |
| RuleProperties.EnumValueLintReport | src/core/config/lint.rs:197-218 | report mode of the enum value rule fails exactly when some variant name differs from its conversion, with lines naming exactly those variants, and success returns the input unchanged |
| RuleProperties.RenamedVariantsFacts | src/core/config/lint.rs:187-196 | an autofixed variant is an old variant with only its name converted; with an idempotent conversion all names conform; the set never grows |
| RuleProperties.VariantsMerge | src/core/config/lint.rs:183-208 | two different variants whose renamed forms coincide merge into one, so the set shrinks |
| RuleProperties.EnumValueLintAutofix | src/core/config/lint.rs:210-212 | autofix mode of the enum value rule succeeds and keeps the server settings, the types, the enum names and each enum's own data; each enum gets its renamed variant set |
| LintPipeline.ApplyRule | src/core/config/lint.rs:58 | running one rule's method and converting its verdict gives the rule's specification turned into a result |
| LintPipeline.Stage | src/core/config/lint.rs:57-59 | one `if` block: a switched-on rule runs on the configuration so far, a switched-off one is skipped, and a failure is passed on |
| LintPipeline.Lint | src/core/config/lint.rs:53-71 | the pass computes its specification: four stages in the order field, type, enum, enum value, starting from the input |
| LintProperties.LintWithoutSettings | src/core/config/lint.rs:53-55 | without a settings block the pass returns its input |
| LintProperties.LintNothingEnabled | src/core/config/lint.rs:57-70 | with no rule switched on the pass returns its input |
| LintProperties.EnabledIff | src/core/config/lint.rs:56-66 | a rule is switched on exactly when its own style is set or `default` is true, and autofix is on exactly when it is set to true |
| LintProperties.LintReportMode | src/core/config/lint.rs:57-68 | in report mode the pass returns the failure of the first switched-on rule, in the order field, type, enum, enum value, that fails on the unchanged input; no later rule contributes; otherwise it returns the input |
| LintProperties.ReportKeeps | src/core/config/lint.rs:103-107 | in report mode a rule either fails or returns exactly its input |
| LintProperties.LintReportFails | src/core/config/lint.rs:57-70 | report mode fails exactly when a switched-on field, type or enum value rule finds a name that differs from its conversion, and non-conforming enum names alone never make it fail; otherwise the input is returned unchanged |
| LintProperties.LintAutofixNeverFails | src/core/config/lint.rs:56-70 | in autofix mode the pass never fails and keeps the server settings |
| LintProperties.CleanIsNoop | src/core/config/lint.rs:81 | a rule in autofix mode changes nothing when all names of its namespace already conform |
| LintProperties.AutofixMakesClean | src/core/config/lint.rs:73 | with an idempotent conversion, an autofix rule leaves every name of its namespace conforming |
| LintProperties.AutofixKeepsClean | src/core/config/lint.rs:115-127 | for any conversion, an autofix rule keeps conforming the namespaces of the rules before it; the type rule moves types without touching their fields |
| LintProperties.AutofixStage | src/core/config/lint.rs:57-68 | one autofix stage keeps the server settings, cleans its own namespace when switched on, and keeps earlier namespaces clean |
| LintProperties.LintConverges | src/core/config/lint.rs:53-71 | with idempotent conversions for the switched-on styles, a second autofix pass over the output of an autofix pass returns that output unchanged |

## Left out

- The case-conversion library (`to_case` from `convert_case`) is not part of this model. It is a parameter of every operation, and its idempotence is a precondition wherever a property needs it. It is not a theorem.
- The `tracing::warn!` rename log lines are left out. They are logging side effects with no effect on the result.
- The serde, schemars and `MergeRight` derives and the serialized style names are left out. They are serialization plumbing.
- The validation crate (`src/core/valid`) is not part of this model. A rule's verdict is reduced to a success or one already-joined message, and `to_result` to a change of shape that keeps the message. The `anyhow` error wrapping is not modelled.
- The configuration types (`src/core/config/config.rs`) are not part of this model. A field's definition, a variant's other data, and a type's and an enum's own settings are each reduced to one opaque string. Only `server.lint`, `types` and `enums` of a configuration are kept.
- The variant order is by name and then by the opaque rest, standing in for the derived order of the variant type, which is not part of this model. Equal names give equal report lines, so the report text does not depend on how ties are broken.
- `tailcall-tracker/src/collect/ga.rs` is not part of this model. It is network I/O.
- `src/cli/server/http_server.rs` is not part of this model. It is runtime and server start-up.
- `src/core/config/mod.rs` is not part of this model. It holds only module declarations.
- RuleProperties.FieldLintReport: states which field names are reported, not how often a field name shared by several types is repeated. `RuleProperties.FieldLintMessage` fixes the lines and their order when names hold no newline.
- RuleProperties.EnumValueLintReport: states which variant names are reported, not how often a name shared by several enums is repeated. `RuleProperties.EnumValueLintMessage` fixes the lines and their order when names hold no newline.
- The code has no collision check and renames during the walk itself, so neither a collision diagnostic nor a two-pass rename is modelled.
