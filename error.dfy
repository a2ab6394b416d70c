/** The error taxonomy: a closed set of five kinds plus optional context fields, with a rendering
    that shows only the fields that are present, in a fixed order. */
module Errors {
  import opened Wrappers

  /** The kind of a `LogKitError` (the cases of `ErrorType.Base`). */
  datatype ErrorType = Generic | InvalidData | InvalidEntry | InvalidService | MissingService {

    /** `description`: the raw value of the case, which is the case's own name. */
    function Description(): (s: string)
      ensures |s| > 0
      ensures forall i :: 0 <= i < |s| ==> IsLetter(s[i])
    {
      match this
      case Generic => "generic"
      case InvalidData => "invalidData"
      case InvalidEntry => "invalidEntry"
      case InvalidService => "invalidService"
      case MissingService => "missingService"
    }

    /** `Base(rawValue:)`, the initialiser a `String`-backed enumeration comes with. */
    static function FromRawValue(raw: string): (t: Option<ErrorType>)
      ensures t.Some? ==> t.value.Description() == raw
    {
      if raw == "generic" then Some(Generic)
      else if raw == "invalidData" then Some(InvalidData)
      else if raw == "invalidEntry" then Some(InvalidEntry)
      else if raw == "invalidService" then Some(InvalidService)
      else if raw == "missingService" then Some(MissingService)
      else None
    }
  }

  predicate IsLetter(c: char)
  {
    ('a' <= c <= 'z') || ('A' <= c <= 'Z')
  }

  /** Every kind is read back from its description. */
  lemma FromRawValueOfDescription(t: ErrorType)
    ensures ErrorType.FromRawValue(t.Description()) == Some(t)
  {
  }

  /** The five kinds render as five distinct strings. */
  lemma DescriptionInjective(a: ErrorType, b: ErrorType)
    requires a.Description() == b.Description()
    ensures a == b
  {
    FromRawValueOfDescription(a);
    FromRawValueOfDescription(b);
  }

  /** A value the core does not own (an underlying error, a failed log entry), known only by its
      `String(reflecting:)` rendering. */
  datatype Reflected = Reflected(text: string)

  function ReflectedText(r: Reflected): string
  {
    r.text
  }

  /** `LogKitError` together with its immutable backing store. */
  datatype LogKitError = LogKitError(
    errorType: ErrorType,
    name: Option<string>,
    reason: Option<string>,
    underlying: Option<Reflected>,
    identifier: Option<string>,
    failedEntry: Option<Reflected>)
  {
    /** `generic(identifier:reason:)`. */
    static function Generic(identifier: string, reason: string): (e: LogKitError)
      ensures e.errorType == ErrorType.Generic
      ensures e.identifier == Some(identifier) && e.reason == Some(reason)
      ensures e.name.None? && e.underlying.None? && e.failedEntry.None?
    {
      LogKitError(ErrorType.Generic, None, Some(reason), None, Some(identifier), None)
    }

    /** `invalidData(_:)`. */
    static function InvalidData(name: string): (e: LogKitError)
      ensures e == NameOnly(ErrorType.InvalidData, name)
      ensures e.errorType == ErrorType.InvalidData && e.name == Some(name)
    {
      LogKitError(ErrorType.InvalidData, Some(name), None, None, None, None)
    }

    /** `invalidEntry(_:)`. */
    static function InvalidEntry(name: string): (e: LogKitError)
      ensures e == NameOnly(ErrorType.InvalidEntry, name)
      ensures e.errorType == ErrorType.InvalidEntry && e.name == Some(name)
    {
      LogKitError(ErrorType.InvalidEntry, Some(name), None, None, None, None)
    }

    /** `invalidService(_:)`. */
    static function InvalidService(name: string): (e: LogKitError)
      ensures e == NameOnly(ErrorType.InvalidService, name)
      ensures e.errorType == ErrorType.InvalidService && e.name == Some(name)
    {
      LogKitError(ErrorType.InvalidService, Some(name), None, None, None, None)
    }

    /** `missingService(_:)`. */
    static function MissingService(name: string): (e: LogKitError)
      ensures e == NameOnly(ErrorType.MissingService, name)
      ensures e.errorType == ErrorType.MissingService && e.name == Some(name)
    {
      LogKitError(ErrorType.MissingService, Some(name), None, None, None, None)
    }

    /** The renderings of the optional fields, in the order the description lists them;
        `None` where the field is absent. */
    function FieldValues(quote: string -> string): (vs: seq<Option<string>>)
      ensures |vs| == |FieldOrder|
    {
      [ OptionMap(name, quote),
        OptionMap(failedEntry, ReflectedText),
        OptionMap(reason, quote),
        OptionMap(underlying, ReflectedText),
        OptionMap(identifier, quote) ]
    }

    /** `description`: the kind, then one `, field: value` segment per present field, in the
        order name, failedEntry, reason, underlying, identifier; strings are rendered by `quote`
        (`String(reflecting:)`). */
    function Description(quote: string -> string): (s: string)
      ensures |s| > |Header(errorType)| && s[|s| - 1] == ')'
    {
      var result := Header(errorType);
      var result := Append(result, "name", OptionMap(name, quote));
      var result := Append(result, "failedEntry", OptionMap(failedEntry, ReflectedText));
      var result := Append(result, "reason", OptionMap(reason, quote));
      var result := Append(result, "underlying", OptionMap(underlying, ReflectedText));
      var result := Append(result, "identifier", OptionMap(identifier, quote));
      result + ")"
    }
  }

  /** An error of the given kind carrying only a name, as the four name-based constructors build. */
  function NameOnly(t: ErrorType, name: string): (e: LogKitError)
    ensures e.errorType == t && e.name == Some(name)
    ensures e.reason.None? && e.underlying.None? && e.identifier.None? && e.failedEntry.None?
  {
    LogKitError(t, Some(name), None, None, None, None)
  }

  function OptionMap<T>(o: Option<T>, f: T -> string): (r: Option<string>)
    ensures r.Some? <==> o.Some?
    ensures r.Some? ==> r.value == f(o.value)
  {
    match o
    case None => None
    case Some(v) => Some(f(v))
  }

  /** The labels of the optional fields, in rendering order. */
  const FieldOrder: seq<string> := ["name", "failedEntry", "reason", "underlying", "identifier"]

  /** The opening of every description. */
  function Header(t: ErrorType): string
  {
    "LogKitError(errorType: " + t.Description()
  }

  /** The text one present field appends: `, field: value`. */
  function Segment(field: string, value: string): string
  {
    ", " + field + ": " + value
  }

  /** `if let value { result.append(", field: value") }`. */
  function Append(result: string, field: string, value: Option<string>): string
  {
    if value.Some? then result + Segment(field, value.value) else result
  }

  /** The segment a possibly absent field contributes: nothing when it is absent. */
  function SegmentOf(field: string, value: Option<string>): string
  {
    if value.Some? then Segment(field, value.value) else ""
  }

  /** Reference rendering of a list of optional fields: a `, field: value` segment for each
      present value, none for an absent one, in list order. */
  function Segments(labels: seq<string>, values: seq<Option<string>>): string
    requires |labels| == |values|
  {
    if |labels| == 0 then ""
    else SegmentOf(labels[0], values[0]) + Segments(labels[1..], values[1..])
  }

  /** The description is the header, the segments of exactly the present fields in the fixed
      order, and the closing parenthesis. */
  lemma {:induction false} DescriptionLayout(e: LogKitError, quote: string -> string)
    ensures e.Description(quote) ==
            Header(e.errorType) + Segments(FieldOrder, e.FieldValues(quote)) + ")"
  {
    var vs := e.FieldValues(quote);
    var h := Header(e.errorType);
    var s0, s1, s2, s3, s4 := SegmentOf("name", vs[0]), SegmentOf("failedEntry", vs[1]),
      SegmentOf("reason", vs[2]), SegmentOf("underlying", vs[3]), SegmentOf("identifier", vs[4]);
    FiveSegments(FieldOrder, vs);
    var d1 := Append(h, "name", OptionMap(e.name, quote));
    var d2 := Append(d1, "failedEntry", OptionMap(e.failedEntry, ReflectedText));
    var d3 := Append(d2, "reason", OptionMap(e.reason, quote));
    var d4 := Append(d3, "underlying", OptionMap(e.underlying, ReflectedText));
    var d5 := Append(d4, "identifier", OptionMap(e.identifier, quote));
    assert e.Description(quote) == d5 + ")";
    assert d1 == h + s0;
    assert d2 == h + s0 + s1;
    assert d3 == h + s0 + s1 + s2;
    assert d4 == h + s0 + s1 + s2 + s3;
    assert d5 == h + s0 + s1 + s2 + s3 + s4;
    calc {
      h + s0 + s1 + s2 + s3 + s4;
      { Associative(h + s0 + s1 + s2, s3, s4); }
      h + s0 + s1 + s2 + (s3 + s4);
      { Associative(h + s0 + s1, s2, s3 + s4); }
      h + s0 + s1 + (s2 + (s3 + s4));
      { Associative(h + s0, s1, s2 + (s3 + s4)); }
      h + s0 + (s1 + (s2 + (s3 + s4)));
      { Associative(h, s0, s1 + (s2 + (s3 + s4))); }
      h + (s0 + (s1 + (s2 + (s3 + s4))));
    }
  }

  lemma Associative(a: string, b: string, c: string)
    ensures a + b + c == a + (b + c)
  {
  }

  lemma SegmentsCons(labels: seq<string>, values: seq<Option<string>>)
    requires |labels| == |values| > 0
    ensures Segments(labels, values) == SegmentOf(labels[0], values[0]) + Segments(labels[1..], values[1..])
  {
  }

  lemma FiveSegments(labels: seq<string>, values: seq<Option<string>>)
    requires |labels| == |values| == 5
    ensures Segments(labels, values) ==
            SegmentOf(labels[0], values[0]) + (SegmentOf(labels[1], values[1]) +
            (SegmentOf(labels[2], values[2]) + (SegmentOf(labels[3], values[3]) +
            SegmentOf(labels[4], values[4]))))
  {
    SegmentsCons(labels, values);
    SegmentsCons(labels[1..], values[1..]);
    SegmentsCons(labels[2..], values[2..]);
    SegmentsCons(labels[3..], values[3..]);
    SegmentsCons(labels[4..], values[4..]);
    assert labels[1..][1..] == labels[2..] && values[1..][1..] == values[2..];
    assert labels[2..][1..] == labels[3..] && values[2..][1..] == values[3..];
    assert labels[3..][1..] == labels[4..] && values[3..][1..] == values[4..];
    assert labels[4..][1..] == [] && values[4..][1..] == [];
  }

  /** Every description opens with `LogKitError(errorType: <kind>` and closes with `)`. */
  lemma DescriptionFraming(e: LogKitError, quote: string -> string)
    ensures Header(e.errorType) <= e.Description(quote)
    ensures |e.Description(quote)| > |Header(e.errorType)|
    ensures e.Description(quote)[|e.Description(quote)| - 1] == ')'
  {
    var d, h := e.Description(quote), Header(e.errorType);
    var s := Segments(FieldOrder, e.FieldValues(quote));
    DescriptionLayout(e, quote);
    Associative(h, s, ")");
    PrefixOfConcat(h, s + ")");
  }

  lemma PrefixOfConcat(a: string, b: string)
    ensures a <= a + b
  {
    assert (a + b)[..|a|] == a;
  }

  /** The longest run of letters a string starts with. */
  function LeadingLetters(s: string): (r: string)
    ensures r <= s
  {
    if |s| == 0 || !IsLetter(s[0]) then "" else [s[0]] + LeadingLetters(s[1..])
  }

  lemma {:induction false} LeadingLettersOfWord(word: string, rest: string)
    requires forall i :: 0 <= i < |word| ==> IsLetter(word[i])
    requires rest == [] || !IsLetter(rest[0])
    ensures LeadingLetters(word + rest) == word
  {
    if word != [] {
      assert (word + rest)[1..] == word[1..] + rest;
      LeadingLettersOfWord(word[1..], rest);
    } else {
      assert word + rest == rest;
    }
  }

  /** The segments start with a comma, unless there are none. */
  lemma {:induction false} SegmentsStartWithComma(labels: seq<string>, values: seq<Option<string>>)
    requires |labels| == |values|
    ensures Segments(labels, values) == [] || Segments(labels, values)[0] == ','
  {
    if |labels| > 0 {
      SegmentsStartWithComma(labels[1..], values[1..]);
    }
  }

  /** The word after the header of a rendering is its kind, whatever segments follow. */
  lemma KindAfterHeader(t: ErrorType, segments: string)
    requires segments == [] || segments[0] == ','
    ensures LeadingLetters((Header(t) + segments + ")")[|"LogKitError(errorType: "|..]) ==
            t.Description()
  {
    var prefix := "LogKitError(errorType: ";
    var rest := segments + ")";
    assert Header(t) + segments + ")" == prefix + (t.Description() + rest);
    assert (prefix + (t.Description() + rest))[|prefix|..] == t.Description() + rest;
    LeadingLettersOfWord(t.Description(), rest);
  }

  /** The kind is read back from a description as the word that follows `errorType: `. */
  lemma ErrorTypeOfDescription(e: LogKitError, quote: string -> string)
    ensures |"LogKitError(errorType: "| <= |e.Description(quote)|
    ensures LeadingLetters(e.Description(quote)[|"LogKitError(errorType: "|..]) ==
            e.errorType.Description()
  {
    DescriptionLayout(e, quote);
    SegmentsStartWithComma(FieldOrder, e.FieldValues(quote));
    KindAfterHeader(e.errorType, Segments(FieldOrder, e.FieldValues(quote)));
  }

  /** Equal descriptions mean equal kinds. */
  lemma DescriptionDeterminesErrorType(a: LogKitError, b: LogKitError, quote: string -> string)
    requires a.Description(quote) == b.Description(quote)
    ensures a.errorType == b.errorType
  {
    ErrorTypeOfDescription(a, quote);
    ErrorTypeOfDescription(b, quote);
    DescriptionInjective(a.errorType, b.errorType);
  }

  /** `generic(identifier:reason:)` renders its reason and then its identifier. */
  lemma GenericDescription(identifier: string, reason: string, quote: string -> string)
    ensures LogKitError.Generic(identifier, reason).Description(quote) ==
            "LogKitError(errorType: generic, reason: " + quote(reason) +
            ", identifier: " + quote(identifier) + ")"
  {
    var qr, qi := quote(reason), quote(identifier);
    var h := Header(Generic);
    var r, i := Segment("reason", qr), Segment("identifier", qi);
    GenericSegments(identifier, reason, quote);
    ReasonText(qr);
    IdentifierText(qi);
    GenericOpening();
    Regroup(h, ", reason: ", qr, ", identifier: ", qi, ")");
  }

  lemma GenericSegments(identifier: string, reason: string, quote: string -> string)
    ensures LogKitError.Generic(identifier, reason).Description(quote) ==
            Header(Generic) + Segment("reason", quote(reason)) +
            Segment("identifier", quote(identifier)) + ")"
  {
  }

  lemma ReasonText(value: string)
    ensures Segment("reason", value) == ", reason: " + value
  {
    assert ", " + "reason" + ": " == ", reason: ";
  }

  lemma IdentifierText(value: string)
    ensures Segment("identifier", value) == ", identifier: " + value
  {
    assert ", " + "identifier" + ": " == ", identifier: ";
  }

  lemma Regroup(h: string, a: string, x: string, b: string, y: string, c: string)
    ensures h + (a + x) + (b + y) + c == h + a + x + b + y + c
  {
  }

  lemma GenericOpening()
    ensures Header(Generic) + ", reason: " == "LogKitError(errorType: generic, reason: "
  {
  }

  lemma SegmentText(field: string, value: string)
    ensures Segment(field, value) == ", " + field + ": " + value
  {
  }

  /** The four name-based constructors render their kind and their name only. */
  lemma NameOnlyDescription(t: ErrorType, name: string, quote: string -> string)
    ensures NameOnly(t, name).Description(quote) ==
            "LogKitError(errorType: " + t.Description() + ", name: " + quote(name) + ")"
  {
  }
}
