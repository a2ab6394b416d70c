# LogKit core, modelled in Dafny

LogKit is a structured-logging layer in Swift. A `LogService` registry maps service identifiers
to logging services. This model covers three parts of it:

- the registry's `register`;
- the two helpers every service gets: `log(_:)`, which decodes an entry from a base64url-wrapped
  JSON payload and hands it to its backend, and `queryitemBuffer(_:)`, which serialises URL query
  items into a `name=value&...` byte buffer;
- the value types under both: `LogKitIdentifier`, and the error taxonomy `LogKitError` with its
  deterministic `description`.

Modules, one per component:

- `wrappers.dfy`, module `Wrappers`: `Optional` and throwing results.
- `identifier.dfy`, module `Identifiers`: `LogKitIdentifier` and its single-value coding.
- `error.dfy`, module `Errors`: `LogKitError`, `ErrorType`, the five constructors and
  `description`.
- `encoding.dfy`, module `Encoding`: UTF-8 (`String.utf8`), percent-encoding and
  `urlHostAllowed`.
- `query_items.dfy`, module `QueryItems`: `queryitemBuffer(_:)` and a reader for its output.
- `entry_decoding.dfy`, module `EntryDecoding`: `log(_:)` on a byte payload.
- `registry.dfy`, module `Registry`: `LogService` and `register(_:)`.

Modelling choices:

- The registry is a class whose `storage` field is a `map`. `Register` rewrites that field in
  place. It returns a `warned` flag where the source prints its overwrite warning.
- A service is a class with a constant `id`. The registry therefore stores the very instance it
  was given.
- `String(reflecting:)` on a string is the parameter `quote: string -> string`. The underlying
  error and the failed entry are foreign values. Each is modelled by the text its own
  `String(reflecting:)` prints (`Reflected`).
- The two decoders that `log(_:)` calls belong to collaborators: `base64URLDecodedBytes()` and
  `JSONDecoder.defaultForLog`. They are parameters that either return a value or throw
  (`EntryCodec`).
- The entry's own `log()` is the class `EntryLogger`. It records each entry it is invoked on. A
  backend that throws is a constant `failure`.
- `urlHostAllowed` is modelled as the characters RFC 3986 (section 3.2.2) allows in a host:
  letters, digits, `-._~`, the sub-delimiters `!$&'()*+,;=`, and `:[]`.
- `addingPercentEncoding` is total. Each disallowed character becomes the `%HH` escapes
  (upper-case hex) of its UTF-8 bytes.
- Each encoder has a decoder beside it: `Utf8Decode`, `PercentDecode` and `ParseBuffer`. They
  exist so that round trips can be stated. The source has no such decoders.

## Model

| member | source | states |
|---|---|---|
| `Identifiers.FromString` | Sources/LogKit/LogKitIdentifier.swift:8-10 | `init(string:)` keeps the string unchanged |
| `Identifiers.FromStringLiteral` | Sources/LogKit/LogKitIdentifier.swift:28-30 | a string literal builds the same identifier as `init(string:)` on the same text |
| `Identifiers.EqualIffSameString` | Sources/LogKit/LogKitIdentifier.swift:5-6 | two identifiers are equal iff their strings are equal |
| `Identifiers.Encode` | Sources/LogKit/LogKitIdentifier.swift:20-23 | the identifier is written as a bare JSON string holding its text |
| `Identifiers.Decode` | Sources/LogKit/LogKitIdentifier.swift:15-18 | decoding succeeds iff the value is a JSON string, taking its text; a null throws `valueNotFound(String)`, any other value `typeMismatch(String)` |
| `Identifiers.DecodeEncode` | Sources/LogKit/LogKitIdentifier.swift:15-23 | `Decode(Encode(id)) == Success(id)` for every identifier |
| `Identifiers.EncodeDecode` | Sources/LogKit/LogKitIdentifier.swift:15-23 | a value that decodes re-encodes to itself |
| `Identifiers.EncodeInjective` | Sources/LogKit/LogKitIdentifier.swift:20-23 | distinct identifiers have distinct encodings |
| `Errors.ErrorType.Description` | Sources/LogKit/LogKitError.swift:7-27 | a kind's description is its raw case name, a non-empty word of letters |
| `Errors.ErrorType.FromRawValue` | Sources/LogKit/LogKitError.swift:7-13 | the synthesised `Base(rawValue:)` returns only a kind whose description is the given text |
| `Errors.FromRawValueOfDescription` | Sources/LogKit/LogKitError.swift:7-27 | every kind is read back from its description |
| `Errors.DescriptionInjective` | Sources/LogKit/LogKitError.swift:25-27 | the five kinds render as five distinct strings |
| `Errors.LogKitError.Generic` | Sources/LogKit/LogKitError.swift:72-74 | `generic` has kind `generic`, sets identifier and reason, and leaves name, underlying and failedEntry absent |
| `Errors.LogKitError.InvalidData` | Sources/LogKit/LogKitError.swift:77-79 | `invalidData` has kind `invalidData` and only its name set |
| `Errors.LogKitError.InvalidEntry` | Sources/LogKit/LogKitError.swift:81-83 | `invalidEntry` has kind `invalidEntry` and only its name set |
| `Errors.LogKitError.InvalidService` | Sources/LogKit/LogKitError.swift:85-87 | `invalidService` has kind `invalidService` and only its name set |
| `Errors.LogKitError.MissingService` | Sources/LogKit/LogKitError.swift:90-92 | `missingService` has kind `missingService` and only its name set |
| `Errors.NameOnly` | Sources/LogKit/LogKitError.swift:77-92 | the name-based errors set the name and leave reason, underlying, identifier and failedEntry absent |
| `Errors.LogKitError.Description` | Sources/LogKit/LogKitError.swift:97-117 | the description is longer than its `LogKitError(errorType: <kind>` header and ends with `)` |
| `Errors.DescriptionLayout` | Sources/LogKit/LogKitError.swift:97-117 | the description is the header, then a `, field: value` segment for each present field and none for an absent one, in the order name, failedEntry, reason, underlying, identifier, then `)` |
| `Errors.DescriptionFraming` | Sources/LogKit/LogKitError.swift:98-116 | every description begins with `LogKitError(errorType: <kind>` and ends with `)` |
| `Errors.ErrorTypeOfDescription` | Sources/LogKit/LogKitError.swift:98-116 | the word after `errorType: ` in a description is the kind's description |
| `Errors.DescriptionDeterminesErrorType` | Sources/LogKit/LogKitError.swift:97-117 | two errors with equal descriptions have equal kinds |
| `Errors.GenericDescription` | Sources/LogKit/LogKitError.swift:72-117 | `generic(i, r)` renders as `LogKitError(errorType: generic, reason: Quote(r), identifier: Quote(i))` |
| `Errors.NameOnlyDescription` | Sources/LogKit/LogKitError.swift:77-117 | a name-only error renders as `LogKitError(errorType: <kind>, name: Quote(n))` |
| `Encoding.Utf8` | Sources/LogKit/LogKitService.swift:77 | a string's UTF-8 bytes number between one and four per character |
| `Encoding.Utf8Char` | Sources/LogKit/LogKitService.swift:77 | a character takes one to four UTF-8 bytes, a single byte equal to its code exactly when it is below U+0080, the rest continuation bytes |
| `Encoding.DecodeFirstUtf8Char` | Sources/LogKit/LogKitService.swift:77 | the UTF-8 decoder reads back exactly the character that was encoded, whatever bytes follow |
| `Encoding.Utf8RoundTrip` | Sources/LogKit/LogKitService.swift:77 | UTF-8 decoding undoes `Array(s.utf8)` |
| `Encoding.Utf8Concat` | Sources/LogKit/LogKitService.swift:77 | the UTF-8 bytes of a concatenation are the concatenated bytes |
| `Encoding.Utf8OfAscii` | Sources/LogKit/LogKitService.swift:77 | an ASCII string encodes to one byte per character, equal to the character's code |
| `Encoding.HostAllowed` | Sources/LogKit/LogKitService.swift:72 | every host-allowed character is ASCII and neither a space nor `%`; every ASCII letter and digit is allowed |
| `Encoding.HostAllowedBasics` | Sources/LogKit/LogKitService.swift:72 | the host-allowed set excludes space and `%` and includes every ASCII letter and digit |
| `Encoding.HexDigit` | Sources/LogKit/LogKitService.swift:72 | each escape digit reads back as the value it encodes |
| `Encoding.PercentEncode` | Sources/LogKit/LogKitService.swift:72 | an encoding is at least as long as its input and at most twelve characters per input character (four escaped bytes) |
| `Encoding.AllowedUnchanged` | Sources/LogKit/LogKitService.swift:72 | a string of allowed characters is its own encoding |
| `Encoding.PercentEncodeAlphabet` | Sources/LogKit/LogKitService.swift:72 | an encoded value holds only allowed characters of the input, `%` signs and hex digits |
| `Encoding.DecodePercentEncode` | Sources/LogKit/LogKitService.swift:72 | if `%` is not allowed, percent-decoding an encoding yields the UTF-8 bytes of the input |
| `Encoding.PercentRoundTrip` | Sources/LogKit/LogKitService.swift:72 | if `%` is not allowed, percent-decoding undoes percent-encoding |
| `QueryItems.PairString` | Sources/LogKit/LogKitService.swift:71-74 | an item with a value gives `name=encoded value` with the name verbatim; an item without one throws `invalidData("logentry query item")` |
| `QueryItems.PairStrings` | Sources/LogKit/LogKitService.swift:70-75 | the throwing map succeeds iff every value is present, keeps one pair per item in input order, and otherwise throws `invalidData("logentry query item")` |
| `QueryItems.Join` | Sources/LogKit/LogKitService.swift:75 | the joined string starts with the first part, and n parts free of a one-character separator give exactly n-1 occurrences of it |
| `QueryItems.Buffer` | Sources/LogKit/LogKitService.swift:69-79 | for any escaping set, fails with `invalidData("logentry query item")` iff some value is absent, and otherwise returns the UTF-8 bytes of the `&`-joined pairs |
| `QueryItems.QueryitemBuffer` | Sources/LogKit/LogKitService.swift:69-79 | fails with `invalidData("logentry query item")` iff some value is absent; otherwise returns the UTF-8 bytes of the pairs joined by `&` |
| `QueryItems.SplitJoin` | Sources/LogKit/LogKitService.swift:75 | the joined body splits at `&` back into its parts, in order, when no part contains `&` (so n parts have n-1 separators and none trails) |
| `QueryItems.QueryitemBufferEmpty` | Sources/LogKit/LogKitService.swift:70-78 | no items give an empty buffer |
| `QueryItems.QueryitemBufferSpaces` | Tests/LogKitTests/LogKitTests.swift:153-166 | `[("test","value"),("spaces","test value")]` gives the bytes of `test=value&spaces=test%20value` |
| `QueryItems.EncodeSpace` | Sources/LogKit/LogKitService.swift:72 | a space in a value becomes `%20` |
| `QueryItems.BufferRoundTrip` | Sources/LogKit/LogKitService.swift:69-79 | if names contain neither `&` nor `=`, and the allowed set escapes every `&` and `=` in the values, the buffer reads back as exactly the items, in order |
| `QueryItems.QueryitemBufferRoundTrip` | Sources/LogKit/LogKitService.swift:69-79 | with the host-allowed set, the buffer reads back as its items when neither names nor values contain `&` or `=` |
| `QueryItems.QueryitemBufferAmbiguous` | Sources/LogKit/LogKitService.swift:72 | one item whose value holds `&` and `=` serialises exactly as two items do, and does not read back as itself |
| `QueryItems.EscapedQueryitemBuffer` | Sources/LogKit/LogKitService.swift:69-79 | the corrected serialiser fails exactly as the original does and otherwise joins pairs whose values also escape `&`, `=` and `+` |
| `QueryItems.EscapedQueryitemBufferRoundTrip` | Sources/LogKit/LogKitService.swift:69-79 | the corrected buffer reads back as its items for any values, provided no name contains `&` or `=` |
| `QueryItems.EscapedAgreesWhenUnambiguous` | Sources/LogKit/LogKitService.swift:72 | the correction changes no buffer whose values contain none of `&`, `=` and `+` |
| `EntryDecoding.DecodeError` | Sources/LogKit/LogKitService.swift:56-58 | a decoding failure becomes `invalidEntry` named `Couldn't decode Entry with error: ` plus the failure's description |
| `EntryDecoding.DecodeEntry` | Sources/LogKit/LogKitService.swift:52-59 | decoding succeeds iff both the base64url and the JSON step succeed, and then yields the JSON result; every failure is an `invalidEntry` error of that form |
| `EntryDecoding.DecodeErrorNamesFailingStep` | Sources/LogKit/LogKitService.swift:52-59 | the error carries the base64url failure if that step failed (so JSON decoding never ran), and otherwise the JSON failure |
| `EntryDecoding.DecodeEncodedEntry` | Sources/LogKit/LogKitService.swift:52-59 | an entry that is JSON-encoded and then base64url-encoded decodes back to itself, given encoders that the decoders invert |
| `EntryDecoding.EntryLogger.Log` | Sources/LogKit/LogKitService.swift:61 | one call to the entry's `log()` records that entry once and returns what the backend throws, if anything |
| `EntryDecoding.LogPayload` | Sources/LogKit/LogKitService.swift:47-63 | on a decode failure, throws that `invalidEntry` error and never invokes `log()`; on success, invokes `log()` exactly once on the decoded entry, then returns the entry or rethrows the backend's error unchanged |
| `Registry.Registered` | Sources/LogKit/LogKitService.swift:24 | after registering, the service's identifier is bound to that service; every other binding is kept; the keys grow by the service's identifier only |
| `Registry.LogService.constructor` | Sources/LogKit/LogKitService.swift:12-14 | a new registry is empty |
| `Registry.LogService.Register` | Sources/LogKit/LogKitService.swift:17-27 | returns the registry itself and never fails; warns iff the identifier was already bound; the new storage is the old storage with the identifier bound to the given service |
| `Registry.LastWriterWins` | Sources/LogKit/LogKitService.swift:22-24 | registering two services with one identifier leaves only the later one bound |
| `Registry.RegisterIdempotent` | Sources/LogKit/LogKitService.swift:22-24 | registering the same service again changes nothing |
| `Registry.RegisteredSize` | Sources/LogKit/LogKitService.swift:22-24 | a new identifier grows the registry by one binding; an overwrite keeps its size |
| `Registry.RegisterTwice` | Tests/LogKitTests/LogKitTests.swift:9-18 | registering one service twice never fails, the second call always warns, and the service is left bound to its identifier |

## Left out

- `Identifiers.EqualIffSameString`: identifiers are compared character by character, not
  under Unicode canonical equivalence as Swift's `String ==` and hashing compare them. So in
  `Registry.LogService.Register` (and `Registry.Registered`), an identifier such as `"\u{E9}"` and
  its decomposed form `"e\u{301}"` are two keys, where the source would warn and overwrite. Dafny
  strings carry no normalisation.
- `Identifiers.Decode`: the decoding errors are reduced to `valueNotFound` and `typeMismatch`
  with the expected type's name only. Coding paths and debug descriptions are not modelled.
- The reader `QueryItems.ParseBuffer` keeps `+` literal; it does not turn it into a space as a
  form-urlencoded reader does.
- The actor isolation of `LogService` and the suspension at `await service.id` are not
  modelled. They concern concurrency. The registry is a sequential class.
- The text of the overwrite warning is not modelled. Printing it is console I/O; the model
  keeps only the `warned` flag.
- `base64URLDecodedBytes()` is not defined in any file of the package. It is a parameter of
  the model, as is the JSON decoder (`JSONDecoder.defaultForLog` and its seconds-since-1970
  date strategy, which concerns floating-point `Date`).
- The entry's `log()` and the backend `LogHandler` are foreign calls. Only these facts about
  them are kept: how often `log()` is called, on which entry, and whether it throws.
- `LogKitEntry`, `LogKitAction`, `LogKitBase` and the protocol requirement
  `log(action:entry:)` declare no behaviour. An entry is a type parameter, and a failed entry
  is an opaque `Reflected` value.
- The private, unused `init(errorType:)` of `LogKitError` has no counterpart.
- Swift's `String(reflecting:)` escaping is not modelled. It is the parameter `quote`.
- Foundation's own `urlHostAllowed` table is replaced by the RFC 3986 host characters. If
  the two differ, the model follows RFC 3986.
- `addingPercentEncoding` returning `nil` is not modelled. This happens only for malformed
  strings, which Dafny strings cannot hold.
- Byte payloads are sequences of bytes. The `DataProtocol` to `Array` conversion is the
  identity.
- The `Logger.MetadataValue` coding test exercises the external swift-log package. It is not
  part of this model.
- `Package.swift` is build configuration.
- A registry lookup by identifier is not modelled. The source has no lookup: `LogService`
  only declares `storage` and `register`. No code raises `missingService` either, beyond its
  constructor.

## Findings

| source | as written | input that shows it | evidently intended | confidence | as-written member | corrected member |
|---|---|---|---|---|---|---|
| Sources/LogKit/LogKitService.swift:72 | values are escaped with `urlHostAllowed`, which lets `&` and `=` through unchanged, so a value can forge extra pairs | `[("a", "x&b=y")]` and `[("a", "x"), ("b", "y")]` both give `a=x&b=y` | a query body whose `&`-separated `name=value` pairs read back as the items, so `&` and `=` in values need escaping (`%26`, `%3D`), and `+`, which form readers take for a space (`%2B`) | medium: follows from `urlHostAllowed` containing the sub-delimiters; not executed | `QueryItems.QueryitemBufferAmbiguous` | `QueryItems.EscapedQueryitemBufferRoundTrip` |
