/** `log(_:)` on encoded bytes: decode an entry from a base64url-wrapped JSON payload, then have
    it logged. */
module EntryDecoding {
  import opened Wrappers
  import opened Encoding
  import opened Errors

  /** A thrown decoder error, known by `String(describing:)`. */
  datatype DecodeFailure = DecodeFailure(description: string)

  /** The two decoders the pipeline runs, which the core does not define (`base64URLDecodedBytes()`
      and `JSONDecoder.defaultForLog`): each either yields its value or throws. */
  datatype EntryCodec<Entry> = EntryCodec(
    base64UrlDecode: seq<byte> -> Result<seq<byte>, DecodeFailure>,
    jsonDecode: seq<byte> -> Result<Entry, DecodeFailure>)

  const DecodeErrorPrefix: string := "Couldn't decode Entry with error: "

  /** The error a decoding failure is reported as. */
  function DecodeError(failure: DecodeFailure): (e: LogKitError)
    ensures e.errorType == ErrorType.InvalidEntry
    ensures e.name == Some(DecodeErrorPrefix + failure.description)
  {
    LogKitError.InvalidEntry(DecodeErrorPrefix + failure.description)
  }

  /** The `do`/`catch` block: base64url-decode the payload, JSON-decode the bytes; whichever
      step throws first is rethrown as `invalidEntry` naming its description, and otherwise the
      decoded entry is the result. */
  function DecodeEntry<Entry>(payload: seq<byte>, codec: EntryCodec<Entry>): (r: Result<Entry, LogKitError>)
    ensures r.Success? <==> codec.base64UrlDecode(payload).Success? &&
                            codec.jsonDecode(codec.base64UrlDecode(payload).value).Success?
    ensures r.Success? ==> r.value == codec.jsonDecode(codec.base64UrlDecode(payload).value).value
    ensures r.Failure? ==> r.error.errorType == ErrorType.InvalidEntry &&
                           exists f: DecodeFailure :: r.error == DecodeError(f)
  {
    match codec.base64UrlDecode(payload)
    case Failure(f) => Failure(DecodeError(f))
    case Success(raw) =>
      match codec.jsonDecode(raw)
      case Failure(f) => Failure(DecodeError(f))
      case Success(entry) => Success(entry)
  }

  /** The error names the step that failed first: a base64url failure is reported as such and
      the JSON decoder never runs; otherwise it is the JSON decoder's failure. */
  lemma DecodeErrorNamesFailingStep<Entry>(payload: seq<byte>, codec: EntryCodec<Entry>)
    requires DecodeEntry(payload, codec).Failure?
    ensures var base := codec.base64UrlDecode(payload);
            DecodeEntry(payload, codec).error ==
              DecodeError(if base.Failure? then base.error else codec.jsonDecode(base.value).error)
  {
  }

  /** A payload made by JSON-encoding an entry and base64url-encoding the result decodes back to
      that entry, given encoders the two decoders invert. */
  lemma DecodeEncodedEntry<Entry>(
    entry: Entry,
    codec: EntryCodec<Entry>,
    base64UrlEncode: seq<byte> -> seq<byte>,
    jsonEncode: Entry -> seq<byte>)
    requires forall raw :: codec.base64UrlDecode(base64UrlEncode(raw)) == Success(raw)
    requires forall e :: codec.jsonDecode(jsonEncode(e)) == Success(e)
    ensures DecodeEntry(base64UrlEncode(jsonEncode(entry)), codec) == Success(entry)
  {
    var raw := jsonEncode(entry);
    assert codec.base64UrlDecode(base64UrlEncode(raw)) == Success(raw);
    assert codec.jsonDecode(raw) == Success(entry);
  }

  /** What is thrown out of `log(_:)`: an error of the core, or one the entry's own `log()`
      throws. */
  datatype Thrown = Core(error: LogKitError) | Backend(failure: Reflected)

  /** The entry's own `log()`, which forwards to the backend: the model records every entry
      it is invoked on, and the backend either accepts each entry or throws `failure`. */
  class EntryLogger<Entry> {
    var logged: seq<Entry>
    const failure: Option<Reflected>

    constructor (failure: Option<Reflected>)
      ensures logged == [] && this.failure == failure
    {
      logged := [];
      this.failure := failure;
    }

    method Log(entry: Entry) returns (thrown: Option<Reflected>)
      modifies this
      ensures logged == old(logged) + [entry]
      ensures thrown == failure
    {
      logged := logged + [entry];
      thrown := failure;
    }
  }

  /** `log(_:)`: on a decoding failure it throws `invalidEntry` and `log()` is not invoked; on
      success `log()` is invoked exactly once, on the decoded entry, which is returned unless
      `log()` throws, in which case that error propagates unchanged. */
  method LogPayload<Entry>(payload: seq<byte>, codec: EntryCodec<Entry>, logger: EntryLogger<Entry>)
    returns (r: Result<Entry, Thrown>)
    modifies logger
    ensures DecodeEntry(payload, codec).Failure? ==>
              r == Failure(Core(DecodeEntry(payload, codec).error)) &&
              logger.logged == old(logger.logged)
    ensures DecodeEntry(payload, codec).Success? ==>
              var entry := DecodeEntry(payload, codec).value;
              logger.logged == old(logger.logged) + [entry] &&
              r == if logger.failure.None? then Success(entry) else Failure(Backend(logger.failure.value))
  {
    var decoded := DecodeEntry(payload, codec);
    if decoded.Failure? {
      return Failure(Core(decoded.error));
    }
    var thrown := logger.Log(decoded.value);
    if thrown.Some? {
      return Failure(Backend(thrown.value));
    }
    return Success(decoded.value);
  }
}
