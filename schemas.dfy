/** The schema composition engine (schema.go): a Schema wraps an optional Type
    and layers the ReadOnly, CreateOnly and WriteOnly flags around it. */
module Schemas {
  import opened Errors
  import opened Values
  import Capabilities

  /** A Schema. Title, Description and DefaultValue are carried for
      documentation and callers; the engine never reads them. */
  datatype Schema = Schema(
    typ: Option<Capabilities.Type>,
    defaultValue: Value,
    title: string,
    description: string,
    readOnly: bool,
    writeOnly: bool,
    createOnly: bool)

  /** Whether Validate puts the equality guard in front of the type's validator. */
  predicate Guarded(s: Schema) {
    s.readOnly || s.createOnly
  }

  /** The validator of the wrapped Type, or the nil validator when there is none. */
  function TypeValidator(s: Schema): (v: Capabilities.ValidatorFunc)
    ensures s.typ.None? ==> forall input, original :: Capabilities.Validate(v, input, original) == Ok(input)
    ensures s.typ.Some? ==> forall input, original ::
      Capabilities.Validate(v, input, original) == Capabilities.Validate(s.typ.value.validator, input, original)
  {
    if s.typ.Some? then s.typ.value.validator else Capabilities.NilValidator
  }

  /** What the type-specific validation makes of input against original. */
  function Delegate(s: Schema, input: Value, original: Value): Result {
    Capabilities.Validate(TypeValidator(s), input, original)
  }

  /** Schema.Parser: identity without a Type, otherwise exactly the Type's parser. */
  function Parser(s: Schema): (p: Capabilities.ParserFunc)
    ensures s.typ.None? ==> forall x :: Capabilities.Parse(p, x) == Ok(x)
    ensures s.typ.Some? ==> forall x :: Capabilities.Parse(p, x) == Capabilities.Parse(s.typ.value.parser, x)
  {
    if s.typ.None? then Capabilities.ParserFunc(x => Ok(x)) else s.typ.value.parser
  }

  /** The guard closure that Validate returns for a ReadOnly or CreateOnly
      schema: a SkipReadOnly envelope is opened and bypasses the check, any
      other input must equal original; then the type validator (or identity)
      runs on the effective input and the untouched original. */
  function Guard(typeValidator: Capabilities.ValidatorFunc, input: Value, original: Value): (r: Result)
    ensures input.SkipReadOnly? ==> r == Capabilities.Validate(typeValidator, input.value, original)
    ensures !input.SkipReadOnly? && input != original ==> r == Fail(Sentinel(CreateOnly))
    ensures !input.SkipReadOnly? && input == original ==> r == Capabilities.Validate(typeValidator, input, original)
  {
    if input.SkipReadOnly? then
      Capabilities.Validate(typeValidator, input.value, original)
    else if input != original then
      Fail(Sentinel(CreateOnly))
    else
      Capabilities.Validate(typeValidator, input, original)
  }

  /** Schema.Validate. */
  function Validate(s: Schema): (v: Capabilities.ValidatorFunc)
    // neither flag: the type validator as it is; an envelope is not opened
    ensures !Guarded(s) ==>
      forall input, original :: Capabilities.Validate(v, input, original) == Delegate(s, input, original)
    // guarded: a changed value is refused with a nil output
    ensures Guarded(s) ==>
      forall input: Value, original: Value :: !input.SkipReadOnly? && input != original ==>
        Capabilities.Validate(v, input, original) == Fail(Sentinel(CreateOnly))
    // guarded: an unchanged value goes to the type validator
    ensures Guarded(s) ==>
      forall input: Value :: !input.SkipReadOnly? ==>
        Capabilities.Validate(v, input, input) == Delegate(s, input, input)
    // guarded: an envelope is opened and its content goes to the type validator
    ensures Guarded(s) ==>
      forall inner, original :: Capabilities.Validate(v, SkipReadOnly(inner), original) == Delegate(s, inner, original)
  {
    var typeValidator := TypeValidator(s);
    if s.readOnly then
      Capabilities.ValidatorFunc((input, original) => Guard(typeValidator, input, original))
    else if s.createOnly then
      Capabilities.ValidatorFunc((input, original) => Guard(typeValidator, input, original))
    else if typeValidator.NilValidator? then
      Capabilities.ValidatorFunc((input, original) => Ok(input))
    else
      typeValidator
  }

  /** Schema.Serializer: Omit for everything when WriteOnly is set; otherwise
      identity without a Type and the Type's serializer with one. */
  function Serializer(s: Schema): (z: Capabilities.SerializerFunc)
    ensures s.writeOnly ==> forall x :: Capabilities.Serialize(z, x) == Ok(Omit)
    ensures !s.writeOnly && s.typ.None? ==> forall x :: Capabilities.Serialize(z, x) == Ok(x)
    ensures !s.writeOnly && s.typ.Some? ==>
      forall x :: Capabilities.Serialize(z, x) == Capabilities.Serialize(s.typ.value.serializer, x)
  {
    if s.writeOnly then
      Capabilities.SerializerFunc(x => Ok(Omit))
    else if s.typ.None? then
      Capabilities.SerializerFunc(x => Ok(x))
    else
      s.typ.value.serializer
  }

  /** A schema with no Type and no flag is a pass-through for all three operations. */
  lemma PlainSchemaIsIdentity(s: Schema, x: Value, original: Value)
    requires s.typ.None? && !s.readOnly && !s.createOnly && !s.writeOnly
    ensures Capabilities.Parse(Parser(s), x) == Ok(x)
    ensures Capabilities.Validate(Validate(s), x, original) == Ok(x)
    ensures Capabilities.Serialize(Serializer(s), x) == Ok(x)
  {
  }

  /** ReadOnly and CreateOnly guard alike: a schema with either flag (or both)
      validates every pair exactly as one with the other flag does. */
  lemma ReadOnlyActsAsCreateOnly(s: Schema, input: Value, original: Value)
    requires s.readOnly
    ensures Capabilities.Validate(Validate(s), input, original)
         == Capabilities.Validate(Validate(s.(readOnly := false, createOnly := true)), input, original)
  {
  }

  /** Every error the engine's validator reports is the guard's CreateOnly or an
      error of the type validator; the engine itself never reports ReadOnly. */
  lemma ValidateErrorsHaveTwoSources(s: Schema, input: Value, original: Value)
    ensures var r := Capabilities.Validate(Validate(s), input, original);
      r.err.Some? ==>
        r == Fail(Sentinel(CreateOnly))
        || r == Delegate(s, if Guarded(s) && input.SkipReadOnly? then input.value else input, original)
  {
  }

  /** Without a Type the validator never fails except on a changed guarded value,
      so ReadOnly never surfaces. */
  lemma UntypedValidateNeverReadOnly(s: Schema, input: Value, original: Value)
    requires s.typ.None?
    ensures Capabilities.Validate(Validate(s), input, original).err != Some(Sentinel(ReadOnly))
  {
  }

  /** Under the guard, the outcome for an envelope does not depend on original
      when there is no Type: its content is accepted as it is. */
  lemma SkipIgnoresOriginal(s: Schema, inner: Value, original1: Value, original2: Value)
    requires Guarded(s) && s.typ.None?
    ensures Capabilities.Validate(Validate(s), SkipReadOnly(inner), original1) == Ok(inner)
    ensures Capabilities.Validate(Validate(s), SkipReadOnly(inner), original2) == Ok(inner)
  {
  }

  /** Under the guard, an unchanged value is accepted exactly when the type
      validator accepts it, with the type validator's output. */
  lemma UnchangedSucceedsIffDelegate(s: Schema, x: Value)
    requires Guarded(s) && !x.SkipReadOnly?
    ensures Capabilities.Validate(Validate(s), x, x).err.None? <==> Delegate(s, x, x).err.None?
    ensures Capabilities.Validate(Validate(s), x, x) == Delegate(s, x, x)
    ensures s.typ.None? ==> Capabilities.Validate(Validate(s), x, x) == Ok(x)
  {
  }

  /** Without either guard flag, an envelope reaches the type validator
      unopened, or comes back unchanged when there is no Type. */
  lemma UnguardedKeepsEnvelope(s: Schema, inner: Value, original: Value)
    requires !Guarded(s)
    ensures Capabilities.Validate(Validate(s), SkipReadOnly(inner), original)
         == Delegate(s, SkipReadOnly(inner), original)
    ensures s.typ.None? ==> Capabilities.Validate(Validate(s), SkipReadOnly(inner), original) == Ok(SkipReadOnly(inner))
  {
  }

  /** WriteOnly hides every value, whatever the Type and the input. */
  lemma WriteOnlyAlwaysOmits(s: Schema, x: Value)
    requires s.writeOnly
    ensures Capabilities.Serialize(Serializer(s), x) == Ok(Omit)
    ensures Capabilities.Serialize(Serializer(s), x) != Ok(Nil)
  {
  }
}
