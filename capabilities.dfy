/** The capability contract (interface.go): function-typed Parser, Serializer,
    Validator and Lesser values, and the Type that bundles the first three. */
module Capabilities {
  import opened Values

  /** ParserFunc; NilParser is ParserFunc(nil). */
  datatype ParserFunc = NilParser | ParserFunc(fn: Value -> Result)

  /** ParserFunc.Parse: a nil parser hands its input back without error,
      otherwise the wrapped function decides. */
  function Parse(p: ParserFunc, input: Value): (r: Result)
    ensures p.NilParser? ==> r == Ok(input)
    ensures p.ParserFunc? ==> r == p.fn(input)
  {
    match p
    case NilParser => Ok(input)
    case ParserFunc(f) => f(input)
  }

  /** SerializerFunc; NilSerializer is SerializerFunc(nil). */
  datatype SerializerFunc = NilSerializer | SerializerFunc(fn: Value -> Result)

  /** SerializerFunc.Serialize: a nil serializer hands its input back without
      error, otherwise the wrapped function decides (it may answer Omit). */
  function Serialize(z: SerializerFunc, input: Value): (r: Result)
    ensures z.NilSerializer? ==> r == Ok(input)
    ensures z.SerializerFunc? ==> r == z.fn(input)
  {
    match z
    case NilSerializer => Ok(input)
    case SerializerFunc(f) => f(input)
  }

  /** ValidatorFunc; NilValidator is ValidatorFunc(nil). */
  datatype ValidatorFunc = NilValidator | ValidatorFunc(fn: (Value, Value) -> Result)

  /** ValidatorFunc.Validate: a nil validator accepts its input as it is and
      ignores original; otherwise the wrapped function gets both, original untouched. */
  function Validate(v: ValidatorFunc, input: Value, original: Value): (r: Result)
    ensures v.NilValidator? ==> r == Ok(input)
    ensures v.ValidatorFunc? ==> r == v.fn(input, original)
  {
    match v
    case NilValidator => Ok(input)
    case ValidatorFunc(f) => f(input, original)
  }

  /** LesserFunc; NilLesser is LesserFunc(nil), which has no safe default. */
  datatype LesserFunc = NilLesser | LesserFunc(fn: (Value, Value) -> bool)

  /** LesserFunc.Less: defined only for a present function (calling a nil one
      panics in Go), and then exactly the function's answer. */
  function Less(l: LesserFunc, a: Value, b: Value): (r: bool)
    requires l.LesserFunc?
    ensures r == l.fn(a, b)
  {
    l.fn(a, b)
  }

  /** The Type interface: the type-specific parser, validator and serializer. */
  datatype Type = Type(parser: ParserFunc, validator: ValidatorFunc, serializer: SerializerFunc)

  /** A nil validator's answer does not depend on original at all. */
  lemma NilValidatorIgnoresOriginal(input: Value, original1: Value, original2: Value)
    ensures Validate(NilValidator, input, original1) == Validate(NilValidator, input, original2) == Ok(input)
  {
  }

  /** The Omit marker is a result of its own: nil is a value to be exported,
      not an omission. */
  lemma OmitIsNotNil()
    ensures Omit != Nil && Ok(Omit) != Ok(Nil)
  {
  }
}
