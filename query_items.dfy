/** `queryitemBuffer(_:)`: serialising URL query items into a form-style byte buffer. */
module QueryItems {
  import opened Wrappers
  import opened Encoding
  import opened Errors

  /** `URLQueryItem`: a name and an optional value. */
  datatype QueryItem = QueryItem(name: string, value: Option<string>)

  /** The name carried by the error a missing value raises. */
  const MissingValueName: string := "logentry query item"

  predicate AllValuesPresent(items: seq<QueryItem>)
  {
    forall i :: 0 <= i < |items| ==> items[i].value.Some?
  }

  /** The closure mapped over the items: `name=value` with the value percent-encoded and the
      name copied as it is; a missing value throws `invalidData`. */
  function PairString(item: QueryItem, allowed: char -> bool): (r: Result<string, LogKitError>)
    ensures r.Success? <==> item.value.Some?
    ensures r.Failure? ==> r.error == LogKitError.InvalidData(MissingValueName)
    ensures r.Success? ==> r.value == item.name + "=" + PercentEncode(item.value.value, allowed)
  {
    match item.value
    case None => Failure(LogKitError.InvalidData(MissingValueName))
    case Some(v) => Success(item.name + "=" + PercentEncode(v, allowed))
  }

  /** The throwing `map`: every item's pair in input order, or the error of the first item that
      has no value. */
  function PairStrings(items: seq<QueryItem>, allowed: char -> bool): (r: Result<seq<string>, LogKitError>)
    ensures r.Success? <==> AllValuesPresent(items)
    ensures r.Failure? ==> r.error == LogKitError.InvalidData(MissingValueName)
    ensures r.Success? ==> |r.value| == |items|
    ensures r.Success? ==>
              forall i :: 0 <= i < |items| ==> r.value[i] == PairString(items[i], allowed).value
  {
    if items == [] then Success([])
    else
      var first :- PairString(items[0], allowed);
      var rest :- PairStrings(items[1..], allowed);
      Success([first] + rest)
  }

  /** `joined(separator:)`: the parts with one separator between neighbours and none at
      either end. */
  function Join(parts: seq<string>, separator: string): (r: string)
    ensures |parts| > 0 ==> parts[0] <= r
    ensures |separator| == 1 && |parts| > 0 &&
            (forall i :: 0 <= i < |parts| ==> Count(separator[0], parts[i]) == 0) ==>
              Count(separator[0], r) == |parts| - 1
  {
    if |parts| == 0 then ""
    else if |parts| == 1 then parts[0]
    else
      var rest := Join(parts[1..], separator);
      CountConcat(parts[0], separator + rest);
      CountConcat(separator, rest);
      assert parts[0] + separator + rest == parts[0] + (separator + rest);
      parts[0] + separator + rest
  }

  /** How often a character occurs in a string. */
  function Count(c: char, s: string): nat
  {
    if s == [] then 0 else (if s[0] == c then 1 else 0) + Count(c, s[1..])
  }

  lemma {:induction false} CountConcat(a: string, b: string)
    ensures forall c :: Count(c, a + b) == Count(c, a) + Count(c, b)
  {
    if a != [] {
      CountConcat(a[1..], b);
      assert (a + b)[1..] == a[1..] + b;
    } else {
      assert a + b == b;
    }
  }

  /** The serialiser for a given set of characters left unescaped in values. */
  function Buffer(items: seq<QueryItem>, allowed: char -> bool): (r: Result<seq<byte>, LogKitError>)
    ensures r.Success? <==> AllValuesPresent(items)
    ensures r.Failure? ==> r.error == LogKitError.InvalidData(MissingValueName)
    ensures r.Success? ==> r.value == Utf8(Join(PairStrings(items, allowed).value, "&"))
  {
    var pairs :- PairStrings(items, allowed);
    Success(Utf8(Join(pairs, "&")))
  }

  /** `queryitemBuffer(_:)`: values are escaped with the host-allowed characters. It fails with
      `invalidData("logentry query item")` exactly when some value is missing, and otherwise
      yields the UTF-8 bytes of the `&`-joined `name=value` pairs in input order. */
  function QueryitemBuffer(items: seq<QueryItem>): (r: Result<seq<byte>, LogKitError>)
    ensures r.Success? <==> AllValuesPresent(items)
    ensures r.Failure? ==> r.error == LogKitError.InvalidData(MissingValueName)
    ensures r.Success? ==> r.value == Utf8(Join(PairStrings(items, HostAllowed).value, "&"))
  {
    Buffer(items, HostAllowed)
  }

  // Reading a buffer back

  /** Splits a string at every occurrence of a separator; the pieces never contain it. */
  function Split(s: string, separator: char): (parts: seq<string>)
    ensures |parts| >= 1
    decreases |s|
  {
    if s == [] then [""]
    else
      var rest := Split(s[1..], separator);
      if s[0] == separator then [""] + rest else [[s[0]] + rest[0]] + rest[1..]
  }

  /** Splits a string at the first occurrence of a separator, if there is one. */
  function SplitAtFirst(s: string, separator: char): Option<(string, string)>
    decreases |s|
  {
    if s == [] then None
    else if s[0] == separator then Some(("", s[1..]))
    else
      match SplitAtFirst(s[1..], separator)
      case None => None
      case Some((before, after)) => Some(([s[0]] + before, after))
  }

  /** Reads one `name=value` pair, percent-decoding the value. */
  function ParsePair(pair: string): Option<QueryItem>
  {
    match SplitAtFirst(pair, '=')
    case None => None
    case Some((name, encoded)) =>
      match PercentDecode(encoded)
      case None => None
      case Some(value) => Some(QueryItem(name, Some(value)))
  }

  function ParsePairs(pairs: seq<string>): Option<seq<QueryItem>>
  {
    if pairs == [] then Some([])
    else
      match ParsePair(pairs[0])
      case None => None
      case Some(item) =>
        match ParsePairs(pairs[1..])
        case None => None
        case Some(rest) => Some([item] + rest)
  }

  /** Reads a buffer back into query items: UTF-8, then `&`-separated `name=value` pairs. */
  function ParseBuffer(buffer: seq<byte>): Option<seq<QueryItem>>
  {
    match Utf8Decode(buffer)
    case None => None
    case Some(body) => if body == "" then Some([]) else ParsePairs(Split(body, '&'))
  }

  // Structure of a joined string

  lemma {:induction false} SplitWithout(s: string, separator: char)
    requires separator !in s
    ensures Split(s, separator) == [s]
  {
    if s != [] {
      SplitWithout(s[1..], separator);
      assert [s[0]] + s[1..] == s;
    }
  }

  lemma {:induction false} SplitAfterPart(part: string, separator: char, rest: string)
    requires separator !in part
    ensures Split(part + [separator] + rest, separator) == [part] + Split(rest, separator)
  {
    var s := part + [separator] + rest;
    if part == [] {
      assert s == [separator] + rest;
      assert s[1..] == rest;
    } else {
      assert s[1..] == part[1..] + [separator] + rest;
      SplitAfterPart(part[1..], separator, rest);
      assert [part[0]] + part[1..] == part;
    }
  }

  /** Splitting a joined string at the separator gives the parts back, in order, provided no
      part contains the separator: the parts are exactly the `&`-separated pieces. */
  lemma {:induction false} SplitJoin(parts: seq<string>, separator: char)
    requires |parts| >= 1
    requires forall i :: 0 <= i < |parts| ==> separator !in parts[i]
    ensures Split(Join(parts, [separator]), separator) == parts
  {
    if |parts| == 1 {
      SplitWithout(parts[0], separator);
    } else {
      SplitAfterPart(parts[0], separator, Join(parts[1..], [separator]));
      SplitJoin(parts[1..], separator);
    }
  }

  lemma {:induction false} SplitAtFirstPair(name: string, separator: char, rest: string)
    requires separator !in name
    ensures SplitAtFirst(name + [separator] + rest, separator) == Some((name, rest))
  {
    var s := name + [separator] + rest;
    if name == [] {
      assert s == [separator] + rest;
      assert s[1..] == rest;
    } else {
      assert s[1..] == name[1..] + [separator] + rest;
      SplitAtFirstPair(name[1..], separator, rest);
      assert [name[0]] + name[1..] == name;
    }
  }

  // What the buffer promises, and where it falls short

  /** Names that neither separator can be confused with. */
  predicate PlainName(name: string)
  {
    '&' !in name && '=' !in name
  }

  /** A value whose `&` and `=` characters, if any, are escaped by the allowed set. */
  predicate SeparatorsEscaped(value: string, allowed: char -> bool)
  {
    forall i :: 0 <= i < |value| && (value[i] == '&' || value[i] == '=') ==> !allowed(value[i])
  }

  lemma EncodedHasNoSeparator(value: string, allowed: char -> bool, sep: char)
    requires sep == '&' || sep == '='
    requires SeparatorsEscaped(value, allowed)
    ensures sep !in PercentEncode(value, allowed)
  {
    var encoded := PercentEncode(value, allowed);
    forall i | 0 <= i < |encoded|
      ensures encoded[i] != sep
    {
      PercentEncodeAlphabet(value, allowed, i);
    }
  }

  /** A pair reads back as the item it was made from. */
  lemma ParsePairString(item: QueryItem, allowed: char -> bool)
    requires !allowed('%') && item.value.Some?
    requires PlainName(item.name)
    ensures ParsePair(PairString(item, allowed).value) == Some(item)
  {
    var encoded := PercentEncode(item.value.value, allowed);
    assert PairString(item, allowed).value == item.name + ['='] + encoded;
    SplitAtFirstPair(item.name, '=', encoded);
    PercentRoundTrip(item.value.value, allowed);
  }

  lemma {:induction false} ParsePairStrings(items: seq<QueryItem>, allowed: char -> bool)
    requires !allowed('%') && AllValuesPresent(items)
    requires forall i :: 0 <= i < |items| ==> PlainName(items[i].name)
    ensures ParsePairs(PairStrings(items, allowed).value) == Some(items)
  {
    if items != [] {
      var pairs := PairStrings(items, allowed).value;
      var tail := items[1..];
      assert pairs[0] == PairString(items[0], allowed).value;
      assert pairs[1..] == PairStrings(tail, allowed).value;
      ParsePairString(items[0], allowed);
      assert AllValuesPresent(tail) && forall i :: 0 <= i < |tail| ==> PlainName(tail[i].name) by {
        forall i | 0 <= i < |tail|
          ensures tail[i].value.Some? && PlainName(tail[i].name)
        {
          assert tail[i] == items[i + 1];
        }
      }
      ParsePairStrings(tail, allowed);
      assert [items[0]] + tail == items;
    }
  }

  /** Whenever names are plain and the allowed set escapes every `&` and `=` that occurs in a
      value, the buffer reads back as exactly the items, in order: one `&`-separated piece per
      item, split at its first `=`. */
  lemma BufferRoundTrip(items: seq<QueryItem>, allowed: char -> bool)
    requires !allowed('%') && AllValuesPresent(items)
    requires forall i :: 0 <= i < |items| ==>
               PlainName(items[i].name) && SeparatorsEscaped(items[i].value.value, allowed)
    ensures Buffer(items, allowed).Success?
    ensures ParseBuffer(Buffer(items, allowed).value) == Some(items)
  {
    var pairs := PairStrings(items, allowed).value;
    var body := Join(pairs, "&");
    Utf8RoundTrip(body);
    if items != [] {
      forall i | 0 <= i < |pairs|
        ensures '&' !in pairs[i]
      {
        EncodedHasNoSeparator(items[i].value.value, allowed, '&');
        assert pairs[i] == items[i].name + "=" + PercentEncode(items[i].value.value, allowed);
      }
      SplitJoin(pairs, '&');
      assert body != "" by {
        assert Split(body, '&') != [""];
      }
      ParsePairStrings(items, allowed);
    }
  }

  /** Under the host-allowed set the buffer reads back as the items whenever no name and no
      value contains `&` or `=`. */
  lemma QueryitemBufferRoundTrip(items: seq<QueryItem>)
    requires AllValuesPresent(items)
    requires forall i :: 0 <= i < |items| ==>
               PlainName(items[i].name) && PlainName(items[i].value.value)
    ensures QueryitemBuffer(items).Success?
    ensures ParseBuffer(QueryitemBuffer(items).value) == Some(items)
  {
    HostAllowedBasics();
    BufferRoundTrip(items, HostAllowed);
  }

  /** No items give an empty buffer. */
  lemma QueryitemBufferEmpty()
    ensures QueryitemBuffer([]) == Success([])
  {
    assert PairStrings([], HostAllowed) == Success([]);
  }

  /** A value's space is escaped as `%20`, the rest of it and the names are kept, and the pairs
      are joined by `&` in input order. */
  lemma QueryitemBufferSpaces()
    ensures QueryitemBuffer([QueryItem("test", Some("value")), QueryItem("spaces", Some("test value"))])
         == Success(Utf8("test=value&spaces=test%20value"))
  {
    var items := [QueryItem("test", Some("value")), QueryItem("spaces", Some("test value"))];
    SpacesExamplePairs(items);
    SpacesExampleJoin();
  }

  lemma SpacesExamplePairs(items: seq<QueryItem>)
    requires items == [QueryItem("test", Some("value")), QueryItem("spaces", Some("test value"))]
    ensures PairStrings(items, HostAllowed) == Success(["test=value", "spaces=test%20value"])
  {
    TwoPairs(items[0], items[1], HostAllowed);
    TestPair();
    SpacesPair();
  }

  lemma TestPair()
    ensures PairString(QueryItem("test", Some("value")), HostAllowed) == Success("test=value")
  {
    EncodeLetters();
    assert "test" + "=" + "value" == "test=value";
  }

  lemma SpacesPair()
    ensures PairString(QueryItem("spaces", Some("test value")), HostAllowed)
         == Success("spaces=test%20value")
  {
    assert "spaces" + "=" == "spaces=";
    assert "spaces=" + "test%20value" == "spaces=test%20value";
    EncodeSpace();
  }

  lemma TwoPairs(a: QueryItem, b: QueryItem, allowed: char -> bool)
    requires a.value.Some? && b.value.Some?
    ensures PairStrings([a, b], allowed) ==
            Success([PairString(a, allowed).value, PairString(b, allowed).value])
  {
    var pa, pb := PairString(a, allowed).value, PairString(b, allowed).value;
    assert [a, b][1..] == [b];
    assert [b][1..] == [];
    assert PairStrings([b], allowed) == Success([pb] + []);
    assert [pb] + [] == [pb];
    assert [pa] + [pb] == [pa, pb];
  }

  lemma SpacesExampleJoin()
    ensures Join(["test=value", "spaces=test%20value"], "&") == "test=value&spaces=test%20value"
  {
    var first, second := "test=value", "spaces=test%20value";
    assert [first, second][1..] == [second];
    assert first + "&" + second == "test=value&spaces=test%20value";
  }

  lemma EncodeLetters()
    ensures PercentEncode("value", HostAllowed) == "value"
  {
    AllowedUnchanged("value", HostAllowed);
  }

  lemma EncodeSpace()
    ensures PercentEncode("test value", HostAllowed) == "test%20value"
  {
    assert "test" + ("%20" + "value") == "test%20value";
    assert "test value" == "test" + " value";
    AllowedUnchanged("test", HostAllowed);
    EncodeLeadingSpace();
    PercentConcat("test", " value", HostAllowed);
  }

  lemma EncodeLeadingSpace()
    ensures PercentEncode(" value", HostAllowed) == "%20" + "value"
  {
    assert " value"[1..] == "value";
    assert Utf8Char(' ') == [0x20];
    assert PercentBytes([0x20]) == "%20";
    EncodeLetters();
  }

  lemma {:induction false} PercentConcat(s: string, t: string, allowed: char -> bool)
    ensures PercentEncode(s + t, allowed) == PercentEncode(s, allowed) + PercentEncode(t, allowed)
  {
    if s != [] {
      var head := if allowed(s[0]) then [s[0]] else PercentBytes(Utf8Char(s[0]));
      PercentEncodeCons(s + t, allowed);
      assert (s + t)[0] == s[0] && (s + t)[1..] == s[1..] + t;
      PercentConcat(s[1..], t, allowed);
      Associative(head, PercentEncode(s[1..], allowed), PercentEncode(t, allowed));
    } else {
      assert s + t == t;
    }
  }

  lemma PercentEncodeCons(s: string, allowed: char -> bool)
    requires s != []
    ensures PercentEncode(s, allowed) ==
            (if allowed(s[0]) then [s[0]] else PercentBytes(Utf8Char(s[0]))) +
            PercentEncode(s[1..], allowed)
  {
  }

  lemma Associative(a: string, b: string, c: string)
    ensures a + (b + c) == a + b + c
  {
  }

  // The ambiguity: `&` and `=` are host-allowed, so they pass through values unescaped

  /** One item whose value holds `&` and `=` serialises exactly as two items do, so the buffer
      no longer tells its items apart: reading it back yields the two items. */
  lemma QueryitemBufferAmbiguous()
    ensures QueryitemBuffer([QueryItem("a", Some("x&b=y"))]) ==
            QueryitemBuffer([QueryItem("a", Some("x")), QueryItem("b", Some("y"))])
    ensures ParseBuffer(QueryitemBuffer([QueryItem("a", Some("x&b=y"))]).value) !=
            Some([QueryItem("a", Some("x&b=y"))])
  {
    var one := [QueryItem("a", Some("x&b=y"))];
    var two := [QueryItem("a", Some("x")), QueryItem("b", Some("y"))];
    AmbiguousBuffers(one, two);
    TwoPlainItems(two);
    QueryitemBufferRoundTrip(two);
    assert |one| != |two|;
  }

  lemma AmbiguousBuffers(one: seq<QueryItem>, two: seq<QueryItem>)
    requires one == [QueryItem("a", Some("x&b=y"))]
    requires two == [QueryItem("a", Some("x")), QueryItem("b", Some("y"))]
    ensures QueryitemBuffer(one) == Success(Utf8("a=x&b=y"))
    ensures QueryitemBuffer(two) == Success(Utf8("a=x&b=y"))
  {
    assert AllValuesPresent(one) by { assert one[0].value.Some?; }
    assert AllValuesPresent(two) by { assert two[0].value.Some? && two[1].value.Some?; }
    AmbiguousJoinedBody(one, two);
  }

  lemma TwoPlainItems(two: seq<QueryItem>)
    requires two == [QueryItem("a", Some("x")), QueryItem("b", Some("y"))]
    ensures AllValuesPresent(two)
    ensures forall i :: 0 <= i < |two| ==>
              PlainName(two[i].name) && PlainName(two[i].value.value)
  {
    assert two[0].value.Some? && two[1].value.Some?;
    assert PlainName("a") && PlainName("b") && PlainName("x") && PlainName("y");
  }

  lemma AmbiguousJoinedBody(one: seq<QueryItem>, two: seq<QueryItem>)
    requires one == [QueryItem("a", Some("x&b=y"))]
    requires two == [QueryItem("a", Some("x")), QueryItem("b", Some("y"))]
    ensures Join(PairStrings(one, HostAllowed).value, "&") == "a=x&b=y"
    ensures Join(PairStrings(two, HostAllowed).value, "&") == "a=x&b=y"
  {
    assert "a" + "=" + "x&b=y" == "a=x&b=y";
    assert "a" + "=" + "x" + "&" + ("b" + "=" + "y") == "a=x&b=y";
    AllowedUnchanged("x&b=y", HostAllowed);
    AllowedUnchanged("x", HostAllowed);
    AllowedUnchanged("y", HostAllowed);
    TwoPairs(two[0], two[1], HostAllowed);
    assert one[1..] == [];
    assert [two[1].name + "=" + "y"][1..] == [];
  }

  // The correction: escape the separators in values as well

  /** The host-allowed characters except the two separators of a form body and `+`, which a
      form reader takes for a space. */
  predicate QueryValueAllowed(c: char)
  {
    HostAllowed(c) && c != '&' && c != '=' && c != '+'
  }

  /** A value holding none of the characters the correction escapes in addition. */
  predicate FormPlain(value: string)
  {
    '&' !in value && '=' !in value && '+' !in value
  }

  /** `queryitemBuffer(_:)` with `&`, `=` and `+` escaped in values (as `%26`, `%3D` and `%2B`);
      it fails exactly as the original does. */
  function EscapedQueryitemBuffer(items: seq<QueryItem>): (r: Result<seq<byte>, LogKitError>)
    ensures r.Success? <==> AllValuesPresent(items)
    ensures r.Failure? ==> r.error == LogKitError.InvalidData(MissingValueName)
    ensures r.Success? ==> r.value == Utf8(Join(PairStrings(items, QueryValueAllowed).value, "&"))
  {
    Buffer(items, QueryValueAllowed)
  }

  /** The corrected buffer always reads back as its items, whatever the values hold. */
  lemma EscapedQueryitemBufferRoundTrip(items: seq<QueryItem>)
    requires AllValuesPresent(items)
    requires forall i :: 0 <= i < |items| ==> PlainName(items[i].name)
    ensures EscapedQueryitemBuffer(items).Success?
    ensures ParseBuffer(EscapedQueryitemBuffer(items).value) == Some(items)
  {
    HostAllowedBasics();
    BufferRoundTrip(items, QueryValueAllowed);
  }

  /** The correction changes nothing for values without `&`, `=` or `+`. */
  lemma EscapedAgreesWhenUnambiguous(items: seq<QueryItem>)
    requires forall i :: 0 <= i < |items| && items[i].value.Some? ==>
               FormPlain(items[i].value.value)
    ensures EscapedQueryitemBuffer(items) == QueryitemBuffer(items)
  {
    if AllValuesPresent(items) {
      var escaped := PairStrings(items, QueryValueAllowed).value;
      var plain := PairStrings(items, HostAllowed).value;
      forall i | 0 <= i < |items|
        ensures escaped[i] == plain[i]
      {
        PercentEncodeAgree(items[i].value.value, QueryValueAllowed, HostAllowed);
      }
      assert escaped == plain;
    }
  }

  lemma {:induction false} PercentEncodeAgree(s: string, a: char -> bool, b: char -> bool)
    requires forall i :: 0 <= i < |s| ==> a(s[i]) == b(s[i])
    ensures PercentEncode(s, a) == PercentEncode(s, b)
  {
    if s != [] {
      PercentEncodeAgree(s[1..], a, b);
    }
  }
}
