/**
 * The self-describing value a YAML document is parsed into before the
 * glossary's own deserializers look at it, and the errors serde reports
 * when a value has the wrong shape.
 *
 * Parsing YAML text is the parser library's business and is not modelled:
 * a document reaches the model already as a `Value`.
 */
module Serde {

  import opened Wrappers

  /** A parsed YAML node. Mapping keys are the term strings of a glossary. */
  datatype Value =
    | Null
    | Bool(b: bool)
    | Number(n: int)
    | Str(s: string)
    | Seq(items: seq<Value>)
    | Map(entries: seq<(string, Value)>)

  /** serde's `de::Unexpected`: how an error names the shape it was handed. */
  datatype Unexpected = UnitValue | Boolean | Numeric | Text | Sequence | Mapping

  function UnexpectedOf(v: Value): Unexpected
  {
    match v
    case Null => UnitValue
    case Bool(_) => Boolean
    case Number(_) => Numeric
    case Str(_) => Text
    case Seq(_) => Sequence
    case Map(_) => Mapping
  }

  datatype DecodeError =
    | InvalidType(found: Unexpected, expected: string)
    | MissingField(field: string)
    | DuplicateField(field: string)
      /** serde_with's `OneOrMany` when neither the one- nor the many-form decodes */
    | NoVariant(one: DecodeError, many: DecodeError)

  // What serde's own visitors say they expected.
  const EXPECT_STRING := "a string"
  const EXPECT_SEQUENCE := "a sequence"
  const EXPECT_MAP := "a map"

  /** `String`'s deserializer: only a string scalar is accepted. */
  function DecodeString(v: Value): (r: Result<string, DecodeError>)
    ensures r.Ok? <==> v.Str?
    ensures v.Str? ==> r.value == v.s
    ensures !v.Str? ==> r.error == InvalidType(UnexpectedOf(v), EXPECT_STRING)
  {
    if v.Str? then Ok(v.s) else Err(InvalidType(UnexpectedOf(v), EXPECT_STRING))
  }
}
