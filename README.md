# Schema composition engine — Dafny model

This project models the core of a Go package that derives, from one `Schema`
description, three transformations of a value: parsing an external
representation into an internal one, validating a proposed internal value
against the value it would replace, and serializing an internal value back.
A `Schema` wraps an optional `Type` (the type-specific parser, validator and
serializer) and layers three flags around it:

- `ReadOnly` and `CreateOnly` put an equality guard in front of the type's
  validator: a value that differs from the original is refused with the
  `create-only` error, unless it arrives wrapped in a `SkipReadOnly` envelope,
  which is opened and bypasses the guard.
- `WriteOnly` makes the serializer answer the `Omit` marker for every value.

The capability values (`ParserFunc`, `SerializerFunc`, `ValidatorFunc`) treat
an absent function as identity; `LesserFunc` has no such default and may only
be called when present. The reference `Time` type parses strings with an
ordered list of layouts (first match wins, result truncated), validates and
serializes time values, orders them chronologically and documents itself as a
`date-time` string.

Layout of the project:

- `errors.dfy` — module `Errors`: the five sentinel errors and their messages (error.go).
- `values.dfy` — module `Values`: the values the engine passes around (`Nil`,
  strings, time instants, `Omit`, the `SkipReadOnly` envelope, opaque other
  values) and Go's `(out, err)` result pair.
- `capabilities.dfy` — module `Capabilities`: the function-typed capability
  values, their nil defaults, and the `Type` bundle (interface.go).
- `schemas.dfy` — module `Schemas`: the `Schema` record and its `Parser`,
  `Validate` and `Serializer` derivations (schema.go).
- `docs.dfy` — module `Docs`: the `StringDoc` record and the two constants the
  time type's documentation uses (schema_doc.go).
- `times.dfy` — module `Times`: the reference time type (type_time.go). Its
  parser loop is the method `ParseInput`, proved equal to the function
  `ParseTime` that the parser value wraps.

Modelling choices:

- Time values are integers: nanoseconds from Go's zero time. `Truncate` rounds
  down to a multiple of the duration (Go rounds toward the past for instants
  before the zero time too, which is Dafny's Euclidean `%`).
- Go's `time.Parse` and `Time.Format` are not modelled. They are the two
  fields of a `TimeLib` parameter, so every property of the time type holds
  for any layout grammar.
- Equality in the read-only guard is Dafny's structural `==` on `Value`.
- Errors are a closed set of sentinels plus `Foreign(id)` for an error some
  other `Type` returns, known only by identity as Go compares errors.
- A failure is `Fail(e)`, which is a nil output paired with the error, as
  every failing path of the package returns.
- schema.go defines no `Doc` method on `Schema`; only `Time.Doc`
  (type_time.go:34-40) builds documentation, so only `Times.Doc` is modelled.

## Model

| member | source | states |
|---|---|---|
| `Errors.Message` | error.go:8-15 | every sentinel has a non-empty message |
| `Errors.MessagesIdentifyKinds` | error.go:8-15 | two sentinels have the same message exactly when they are the same sentinel, so the five are pairwise distinct |
| `Errors.MessageTexts` | error.go:9-14 | the messages are exactly "read-only", "create-only", "not a string", "invalid format" and "not a time.Time" |
| `Capabilities.Parse` | interface.go:54-59 | a nil parser returns its input with no error; a present one returns exactly what the function returns |
| `Capabilities.Serialize` | interface.go:72-77 | a nil serializer returns its input with no error; a present one returns exactly what the function returns |
| `Capabilities.Validate` | interface.go:90-95 | a nil validator returns its input with no error; a present one returns what the function returns for the same input and original |
| `Capabilities.NilValidatorIgnoresOriginal` | interface.go:90-93 | a nil validator's result does not depend on original |
| `Capabilities.Less` | interface.go:111-117 | callable only when the function is present (a nil one panics), and then exactly the function's answer |
| `Capabilities.OmitIsNotNil` | interface.go:61-63 | the Omit marker and nil are different results |
| `Schemas.Parser` | schema.go:27-34 | without a Type the parser is identity for every input; with one it behaves exactly as the Type's parser |
| `Schemas.TypeValidator` | schema.go:38-41 | without a Type the validator in use is identity for every input and original; with one it answers as the Type's validator |
| `Schemas.Guard` | schema.go:43-65 | the guard closure: an envelope is opened and its content validated against the untouched original; a changed value fails with CreateOnly and a nil output; an unchanged one goes to the type validator |
| `Schemas.Validate` | schema.go:37-74 | unguarded: the type validator (or identity); guarded: a changed non-envelope input fails with CreateOnly and a nil output, an unchanged one goes to the type validator, an envelope is opened and its content goes to the type validator with the original |
| `Schemas.Serializer` | schema.go:77-89 | WriteOnly yields Omit with no error for every input; otherwise identity without a Type and the Type's serializer with one |
| `Schemas.PlainSchemaIsIdentity` | schema.go:27-89 | a schema with no Type and no flag parses, validates and serializes every value to itself |
| `Schemas.ReadOnlyActsAsCreateOnly` | schema.go:42-66 | a ReadOnly schema validates every input and original exactly as the CreateOnly-only schema over the same Type |
| `Schemas.ValidateErrorsHaveTwoSources` | schema.go:42-73 | every validation error is either the guard's CreateOnly or the type validator's error on the effective input |
| `Schemas.UntypedValidateNeverReadOnly` | schema.go:42-73 | without a Type the ReadOnly error never occurs |
| `Schemas.SkipIgnoresOriginal` | schema.go:44-51 | guarded and without a Type, an envelope yields its content whatever the original |
| `Schemas.UnchangedSucceedsIffDelegate` | schema.go:46-52 | guarded, validating a value against itself succeeds exactly when the type validator does, with its result, and returns the value without a Type |
| `Schemas.UnguardedKeepsEnvelope` | schema.go:68-73 | without either guard flag an envelope reaches the type validator unopened, or comes back unchanged without a Type |
| `Schemas.WriteOnlyAlwaysOmits` | schema.go:78-82 | a WriteOnly schema serializes every value to Omit, never to nil |
| `Times.Layouts` | type_time.go:58-61 | the layouts tried are never empty: the configured ones, or the three defaults when none are configured |
| `Times.SerializeLayout` | type_time.go:43-46 | the serialize layout is never empty: the configured one, or the first default layout |
| `Times.Truncate` | type_time.go:29-31 | with a positive duration the result is a multiple of it, not after the input and less than one duration before it; otherwise the input unchanged |
| `Times.TruncateIsGreatestMultiple` | type_time.go:29-31 | the truncated instant is the latest multiple of the duration not after the input |
| `Times.TruncateIdempotent` | type_time.go:73 | truncating twice gives the same instant as truncating once |
| `Times.FirstParse` | type_time.go:69-77 | the layout search only ever answers with what some layout parsed; FirstMatchWins, FirstParseHasFirstMatch and FirstParseNoneIffNoMatch state that it is the first matching layout |
| `Times.FirstMatchWins` | type_time.go:70-74 | the layout search answers with the first layout in order that parses the string |
| `Times.FirstParseHasFirstMatch` | type_time.go:70-74 | a successful search always comes from a first matching layout |
| `Times.FirstParseNoneIffNoMatch` | type_time.go:70-77 | the search fails exactly when no layout parses the string |
| `Times.ParseInput` | type_time.go:63-78 | the loop that tries the layouts in order and returns early computes exactly the parser's result |
| `Times.ParseTime` | type_time.go:63-78 | the parser closure: a non-string fails with NotString, a success is a time, every failure has a nil output and a string fails only with InvalidFormat; ParseRejectsNonString, ParseUsesFirstMatch, ParseSuccessComesFromFirstMatch and ParseFailsIffNoLayoutMatches state which layout decides |
| `Times.Parser` | type_time.go:57-79 | the time parser is a present parser value that answers as the parser closure does |
| `Times.ParseRejectsNonString` | type_time.go:64-67 | a non-string input fails with NotString and a nil output |
| `Times.ParseUsesFirstMatch` | type_time.go:70-74 | the result is the truncated instant of the first layout that parses the string; later layouts are never used |
| `Times.ParseSuccessComesFromFirstMatch` | type_time.go:70-74 | every successful parse is the truncated answer of a first matching layout |
| `Times.ParseFailsIffNoLayoutMatches` | type_time.go:70-77 | parsing a string fails, always with InvalidFormat and a nil output, exactly when no layout parses it |
| `Times.DefaultParsesRfc3339` | type_time_test.go:23-30 | with default settings a string the RFC 3339 layout accepts is parsed by it |
| `Times.DefaultFallsBackToRfc1123` | type_time_test.go:32-39 | with default settings a string only the RFC 1123 layout accepts falls through to it |
| `Times.DefaultRejectsUnknownFormat` | type_time_test.go:41-46 | with default settings a string no layout accepts fails with the "invalid format" error and a nil output |
| `Times.ValidateTime` | type_time.go:82-88 | a time passes unchanged, anything else fails with NotGoTime |
| `Times.Validator` | type_time.go:81-89 | the time validator is a present validator value that answers as the validator closure does |
| `Times.ValidateTimeIdempotent` | type_time.go:82-88 | validation ignores original and validating its output again gives the same result |
| `Times.SerializeTime` | type_time.go:48-54 | a time is formatted with the serialize layout, anything else fails with NotGoTime |
| `Times.Serializer` | type_time.go:42-55 | the time serializer is a present serializer value that answers as the serializer closure does |
| `Times.SerializeThenParse` | type_time.go:42-79 | when the serialize layout is the first parse layout and reads back what it formats, parsing a serialized time gives the time back, truncated |
| `Times.DefaultSerializesWithFirstLayout` | type_time.go:13-17 | the default configuration serializes with RFC 3339, the layout it tries first |
| `Times.Before` | type_time.go:92-103 | true exactly when both operands are times and the first is strictly earlier |
| `Times.Lesser` | type_time.go:91-104 | the time lesser is a present comparator that answers as Before |
| `Times.BeforeIsStrictOrder` | type_time.go:92-103 | Before is irreflexive, asymmetric, transitive, and total on distinct instants (a time is only its instant, see "## Left out") |
| `Times.BeforeFalseOnNonTime` | type_time.go:93-100 | a non-time operand in either position makes the comparison false |
| `Times.Doc` | type_time.go:34-40 | the documentation is a string document with format date-time that carries the schema unchanged and leaves the other fields out |
| `Times.AsType` | type_time.go:7-11 | Time used as a Type: its parser, validator and serializer answer as ParseTime, ValidateTime and SerializeTime |
| `Times.ReadOnlyTimeField` | schema.go:42-53 | a read-only time schema refuses a changed time with CreateOnly, accepts an unchanged one, and hands an opened envelope to the time validator |

## Left out

- The grammars of Go's `time.Parse` and `Time.Format` for the RFC 3339, RFC 1123 and RFC 822 layouts: they are standard-library calls, given to the model as the `TimeLib` parameter; no string round trip through them is proved, only round trips that follow from an assumed read-back property.
- Time zones, locations and monotonic clock readings of Go's `time.Time`: a time is only its instant, so the read-only guard compares instants, where Go's `!=` also compares location and clock reading; two Go times with the same instant and different locations are distinct values that neither precedes, while the model has one value, so `Times.BeforeIsStrictOrder` is total only on distinct instants.
- Go's 64-bit bounds on `time.Duration` and on the instant: both are unbounded integers.
- Go's panic on `!=` between uncomparable dynamic types (maps, slices) in the read-only guard: values compare structurally.
- Schemas.Validate: does not model Go's `!=` being true for a NaN float (or a struct or array holding one) compared with itself, so the model sends an unchanged NaN to the type validator where schema.go:46 and 58 refuse it with `ErrCreateOnly`; the model's structural `==` on `Value` is reflexive.
- `Schema.Dependency` and `Schema.Default` semantics: neither is read by any method (`Default` is kept as a plain field, `Dependency` is dropped because it is a recursive map that nothing reads).
- `ElementType`, `PropertyType` and `DocType` lookups: interface shapes with no implementation in the core.
- The JSON encoding of documentation records (`omitempty`, field names) and the `NumberDoc`, `ObjectDoc` and `ArrayDoc` records: encoder behaviour and shapes no core function builds.
- Errors that other Types return are represented only by identity (`Foreign`), without messages.
