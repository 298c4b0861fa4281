/** The one documentation record the core builds (schema_doc.go): the
    JSON-Schema description of a string-typed value. */
module Docs {
  import Schemas

  /** The JSON-Schema type name of strings. */
  const TypeString: string := "string"

  /** The JSON-Schema format name of RFC 3339 date-times. */
  const FormatDateTime: string := "date-time"

  /** StringDoc: the schema's generic fields plus the string-specific ones;
      an empty string stands for a field left out of the JSON. */
  datatype StringDoc = StringDoc(
    schema: Schemas.Schema,
    typeName: string,
    format: string,
    pattern: string,
    minLength: string,
    maxLength: string)
}
