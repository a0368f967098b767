/** The part of the gateway configuration that the naming-convention lint
    reads and rewrites, with the five naming styles it can enforce. */
module ConfigModel {
  import opened Validation
  import opened Ordering

  /** The naming styles a lint setting may name. */
  datatype TextCase = CamelCase | PascalCase | SnakeCase | ScreamingSnakeCase | AllCaps

  /** The conversion targets of the case-conversion library that the lint
      uses (only the five it selects). */
  datatype Case = Camel | Pascal | Snake | ScreamingSnake | Upper

  /** The conversion each naming style selects. */
  function TransformTextCase(s: TextCase): Case
  {
    match s
    case CamelCase => Camel
    case PascalCase => Pascal
    case SnakeCase => Snake
    case ScreamingSnakeCase => ScreamingSnake
    case AllCaps => Upper
  }

  /** The naming style a conversion target stands for; undoes TransformTextCase. */
  function TextCaseOf(c: Case): TextCase
  {
    match c
    case Camel => CamelCase
    case Pascal => PascalCase
    case Snake => SnakeCase
    case ScreamingSnake => ScreamingSnakeCase
    case Upper => AllCaps
  }

  /** The five styles select five different conversions, and every conversion
      the lint uses is selected by exactly one style. */
  lemma TransformTextCaseBijective(s: TextCase, c: Case)
    ensures TextCaseOf(TransformTextCase(s)) == s
    ensures TransformTextCase(TextCaseOf(c)) == c
    ensures TransformTextCase(AllCaps) != TransformTextCase(ScreamingSnakeCase)
  {
  }

  /** The case-conversion routine (`to_case`) of the external library: an
      identifier and a target case give the converted identifier. */
  type Converter = (string, Case) -> string

  /** Converting an identifier already in the target case leaves it alone. */
  ghost predicate Idempotent(conv: Converter, c: Case)
  {
    forall s :: conv(conv(s, c), c) == conv(s, c)
  }

  /** A field definition; the lint never looks inside it. */
  datatype Field = Field(rest: string)

  /** A type definition: its fields by name, and the rest of its settings. */
  datatype Type = Type(fields: map<string, Field>, rest: string)

  /** An enum variant: its name, and its other data (which orders it after
      the name when two variants share a name). */
  datatype Variant = Variant(name: string, rest: string)

  /** An enum definition: a set of variants, and the rest of its settings. */
  datatype Enum = Enum(variants: set<Variant>, rest: string)

  /** The `server.lint` settings block. */
  datatype LintSettings = LintSettings(
    default: Option<bool>,
    autofix: Option<bool>,
    fieldLint: Option<TextCase>,
    typeLint: Option<TextCase>,
    enumLint: Option<TextCase>,
    enumValueLint: Option<TextCase>)

  datatype Server = Server(lint: Option<LintSettings>)

  datatype Config = Config(server: Server, types: map<string, Type>, enums: map<string, Enum>)

  /** The order of variants in their ordered set: by name, then by the rest. */
  predicate VariantLess(v: Variant, w: Variant)
  {
    StrLess(v.name, w.name) || (v.name == w.name && StrLess(v.rest, w.rest))
  }

  lemma VariantLessIsOrder(s: set<Variant>)
    ensures StrictTotalOrderOn(VariantLess, s)
  {
    forall v | v in s ensures !VariantLess(v, v) {
      StrLessIrreflexive(v.name);
      StrLessIrreflexive(v.rest);
    }
    forall u, v, w | u in s && v in s && w in s && VariantLess(u, v) && VariantLess(v, w)
      ensures VariantLess(u, w)
    {
      if StrLess(u.name, v.name) && StrLess(v.name, w.name) {
        StrLessTransitive(u.name, v.name, w.name);
      } else if u.name == v.name && v.name == w.name {
        StrLessTransitive(u.rest, v.rest, w.rest);
      }
    }
    forall v, w | v in s && w in s && v != w ensures VariantLess(v, w) || VariantLess(w, v) {
      if v.name != w.name {
        StrLessTotal(v.name, w.name);
      } else {
        StrLessTotal(v.rest, w.rest);
      }
    }
  }

  /** The variants of an enum in the order its ordered set visits them. */
  function SortedVariants(s: set<Variant>): (r: seq<Variant>)
    ensures |r| == |s|
    ensures forall v :: v in r <==> v in s
    ensures forall i, j :: 0 <= i < j < |r| ==> VariantLess(r[i], r[j])
  {
    VariantLessIsOrder(s);
    SortedBy(s, VariantLess)
  }
}
