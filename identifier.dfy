/** The identifier under which a service is registered: an immutable wrapper over one string. */
module Identifiers {
  import opened Wrappers

  /** A service identifier. Its only stored field is the string, so equality (and hashing) is by
      that string. */
  datatype Identifier = Identifier(str: string)

  /** `init(string:)`: any string is accepted, unchanged. */
  function FromString(s: string): (id: Identifier)
    ensures id.str == s
  {
    Identifier(s)
  }

  /** `init(stringLiteral:)`: a literal builds the same identifier as `init(string:)`. */
  function FromStringLiteral(literal: string): (id: Identifier)
    ensures id == FromString(literal)
    ensures id.str == literal
  {
    FromString(literal)
  }

  /** Two identifiers are equal exactly when their strings are. */
  lemma EqualIffSameString(a: Identifier, b: Identifier)
    ensures a == b <==> a.str == b.str
  {
  }

  /** The value a `Codable` single-value container holds: one JSON value. */
  datatype Json =
    | JString(s: string)
    | JNumber(n: int)
    | JBool(b: bool)
    | JNull
    | JArray(elements: seq<Json>)
    | JObject(members: seq<(string, Json)>)

  /** Why a single-value container could not be read as the requested type: a null where a value
      was expected (`valueNotFound`), or a value of another type (`typeMismatch`). */
  datatype DecodingError =
    | ValueNotFound(expected: string)
    | TypeMismatch(expected: string, found: Json)

  /** `encode(to:)`: the identifier is written as a bare string, not as an object. */
  function Encode(id: Identifier): (v: Json)
    ensures v.JString? && v.s == id.str
  {
    JString(id.str)
  }

  /** `init(from:)`: a single string value is read back; a null is a missing value and any other
      value is a type mismatch. */
  function Decode(v: Json): (r: Result<Identifier, DecodingError>)
    ensures r.Success? <==> v.JString?
    ensures r.Success? ==> r.value.str == v.s
    ensures v.JNull? ==> r == Failure(ValueNotFound("String"))
    ensures !v.JString? && !v.JNull? ==> r == Failure(TypeMismatch("String", v))
  {
    match v
    case JString(s) => Success(FromString(s))
    case JNull => Failure(ValueNotFound("String"))
    case _ => Failure(TypeMismatch("String", v))
  }

  /** Decoding what was encoded gives back the same identifier. */
  lemma DecodeEncode(id: Identifier)
    ensures Decode(Encode(id)) == Success(id)
  {
  }

  /** Whatever decodes re-encodes to the very same value, so a decoded identifier loses nothing. */
  lemma EncodeDecode(v: Json)
    requires Decode(v).Success?
    ensures Encode(Decode(v).value) == v
  {
  }

  /** Encoding is injective: distinct identifiers never share an encoding. */
  lemma EncodeInjective(a: Identifier, b: Identifier)
    requires Encode(a) == Encode(b)
    ensures a == b
  {
    DecodeEncode(a);
    DecodeEncode(b);
  }
}
