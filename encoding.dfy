/** The text encodings the query-item serialiser relies on: UTF-8 (`String.utf8`) and
    percent-encoding (`addingPercentEncoding(withAllowedCharacters:)`), each with a decoder that
    undoes it. */
module Encoding {
  import opened Wrappers

  /** An octet, as in `[UInt8]`. */
  type byte = b: int | 0 <= b < 256

  /** A Unicode scalar value: a code point that is not a surrogate. */
  predicate IsScalar(n: int)
  {
    (0 <= n < 0xD800) || (0xE000 <= n < 0x11_0000)
  }

  predicate IsContinuation(b: byte)
  {
    0x80 <= b < 0xC0
  }

  /** The UTF-8 encoding of one character: one byte below U+0080, otherwise a lead byte that
      gives the length followed by continuation bytes carrying six bits each. */
  function Utf8Char(c: char): (bs: seq<byte>)
    ensures 1 <= |bs| <= 4
    ensures |bs| == 1 <==> c as int < 0x80
    ensures |bs| == 1 ==> bs[0] == c as int
    ensures forall i :: 1 <= i < |bs| ==> IsContinuation(bs[i])
  {
    var n := c as int;
    var q1 := n / 64;
    var q2 := q1 / 64;
    var q3 := q2 / 64;
    if n < 0x80 then [n]
    else if n < 0x800 then [0xC0 + q1, 0x80 + n % 64]
    else if n < 0x1_0000 then [0xE0 + q2, 0x80 + q1 % 64, 0x80 + n % 64]
    else [0xF0 + q3, 0x80 + q2 % 64, 0x80 + q1 % 64, 0x80 + n % 64]
  }

  /** `Array(s.utf8)`: the UTF-8 bytes of a string, character by character. */
  function Utf8(s: string): (bs: seq<byte>)
    ensures |s| <= |bs| <= 4 * |s|
  {
    if s == [] then [] else Utf8Char(s[0]) + Utf8(s[1..])
  }

  /** The character a well-formed UTF-8 sequence at the start of `bs` encodes, and the number of
      bytes it takes; `None` for a malformed, overlong or truncated sequence or a surrogate. */
  function DecodeFirst(bs: seq<byte>): (r: Option<(char, nat)>)
    requires |bs| > 0
    ensures r.Some? ==> 1 <= r.value.1 <= |bs|
  {
    var b0 := bs[0] as int;
    if b0 < 0x80 then Some((b0 as char, 1))
    else if 0xC0 <= b0 < 0xE0 && |bs| >= 2 && IsContinuation(bs[1]) then
      ScalarOf((b0 - 0xC0) * 64 + Low(bs[1]), 0x80, 2)
    else if 0xE0 <= b0 < 0xF0 && |bs| >= 3 && IsContinuation(bs[1]) && IsContinuation(bs[2]) then
      ScalarOf(((b0 - 0xE0) * 64 + Low(bs[1])) * 64 + Low(bs[2]), 0x800, 3)
    else if 0xF0 <= b0 < 0xF8 && |bs| >= 4 && IsContinuation(bs[1]) && IsContinuation(bs[2])
            && IsContinuation(bs[3]) then
      ScalarOf((((b0 - 0xF0) * 64 + Low(bs[1])) * 64 + Low(bs[2])) * 64 + Low(bs[3]), 0x1_0000, 4)
    else None
  }

  /** The six payload bits of a continuation byte. */
  function Low(b: byte): int
  {
    b as int - 0x80
  }

  function ScalarOf(n: int, least: int, length: nat): (r: Option<(char, nat)>)
    ensures r.Some? ==> r.value.1 == length
  {
    if least <= n && IsScalar(n) then Some((n as char, length)) else None
  }

  /** Decodes a whole byte sequence as UTF-8; `None` if any part of it is malformed. */
  function Utf8Decode(bs: seq<byte>): Option<string>
    decreases |bs|
  {
    if bs == [] then Some([])
    else
      match DecodeFirst(bs)
      case None => None
      case Some((c, length)) =>
        match Utf8Decode(bs[length..])
        case None => None
        case Some(rest) => Some([c] + rest)
  }

  /** The decoder reads back exactly the character the encoder wrote, whatever follows it. */
  lemma DecodeFirstUtf8Char(c: char, rest: seq<byte>)
    ensures DecodeFirst(Utf8Char(c) + rest) == Some((c, |Utf8Char(c)|))
  {
    var bs := Utf8Char(c) + rest;
    var n := c as int;
    var q1 := n / 64;
    var q2 := q1 / 64;
    var q3 := q2 / 64;
    if n < 0x80 {
    } else if n < 0x800 {
      assert bs[0] == 0xC0 + q1 && bs[1] == 0x80 + n % 64;
      assert (bs[0] as int - 0xC0) * 64 + Low(bs[1]) == n;
    } else if n < 0x1_0000 {
      assert bs[0] == 0xE0 + q2 && bs[1] == 0x80 + q1 % 64 && bs[2] == 0x80 + n % 64;
      assert (bs[0] as int - 0xE0) * 64 + Low(bs[1]) == q1;
    } else {
      assert bs[0] == 0xF0 + q3 && bs[1] == 0x80 + q2 % 64 && bs[2] == 0x80 + q1 % 64
          && bs[3] == 0x80 + n % 64;
      assert (bs[0] as int - 0xF0) * 64 + Low(bs[1]) == q2;
      assert ((bs[0] as int - 0xF0) * 64 + Low(bs[1])) * 64 + Low(bs[2]) == q1;
    }
  }

  /** UTF-8 decoding undoes UTF-8 encoding. */
  lemma {:induction false} Utf8RoundTrip(s: string)
    ensures Utf8Decode(Utf8(s)) == Some(s)
  {
    if s != [] {
      var bs := Utf8(s);
      var first := Utf8Char(s[0]);
      DecodeFirstUtf8Char(s[0], Utf8(s[1..]));
      assert bs[|first|..] == Utf8(s[1..]);
      Utf8RoundTrip(s[1..]);
      assert s == [s[0]] + s[1..];
    }
  }

  /** The UTF-8 encoding of a concatenation is the concatenation of the encodings. */
  lemma {:induction false} Utf8Concat(s: string, t: string)
    ensures Utf8(s + t) == Utf8(s) + Utf8(t)
  {
    if s != [] {
      assert (s + t)[1..] == s[1..] + t;
      Utf8Concat(s[1..], t);
    } else {
      assert s + t == t;
    }
  }

  /** A string of basic Latin characters encodes to one byte per character, equal to its code. */
  lemma {:induction false} Utf8OfAscii(s: string)
    requires forall i :: 0 <= i < |s| ==> s[i] as int < 0x80
    ensures |Utf8(s)| == |s|
    ensures forall i :: 0 <= i < |s| ==> Utf8(s)[i] == s[i] as int
  {
    if s != [] {
      Utf8OfAscii(s[1..]);
    }
  }

  /** `CharacterSet.urlHostAllowed`: the characters RFC 3986 admits in a host, namely the
      unreserved ones, the sub-delimiters, and `:`, `[` and `]`. */
  function HostAllowed(c: char): (r: bool)
    ensures r ==> c as int < 0x80 && c != ' ' && c != '%'
    ensures ('a' <= c <= 'z') || ('A' <= c <= 'Z') || ('0' <= c <= '9') ==> r
  {
    ('a' <= c <= 'z') || ('A' <= c <= 'Z') || ('0' <= c <= '9') || c in "-._~!$&'()*+,;=:[]"
  }

  lemma HostAllowedBasics()
    ensures !HostAllowed(' ') && !HostAllowed('%')
    ensures forall c: char :: ('a' <= c <= 'z') || ('A' <= c <= 'Z') || ('0' <= c <= '9')
                              ==> HostAllowed(c)
  {
  }

  /** The upper-case hexadecimal digit of a value below 16. */
  function HexDigit(d: int): (c: char)
    requires 0 <= d < 16
    ensures HexValue(c) == Some(d)
  {
    if d < 10 then ('0' as int + d) as char else ('A' as int + d - 10) as char
  }

  /** The value of a hexadecimal digit of either case. */
  function HexValue(c: char): (r: Option<int>)
    ensures r.Some? ==> 0 <= r.value < 16
  {
    if '0' <= c <= '9' then Some(c as int - '0' as int)
    else if 'A' <= c <= 'F' then Some(c as int - 'A' as int + 10)
    else if 'a' <= c <= 'f' then Some(c as int - 'a' as int + 10)
    else None
  }

  /** `%HH`: one escaped byte. */
  function PercentByte(b: byte): (s: string)
    ensures |s| == 3 && s[0] == '%'
  {
    ['%', HexDigit(b / 16), HexDigit(b % 16)]
  }

  function PercentBytes(bs: seq<byte>): (s: string)
    ensures |s| == 3 * |bs|
  {
    if bs == [] then "" else PercentByte(bs[0]) + PercentBytes(bs[1..])
  }

  /** `addingPercentEncoding(withAllowedCharacters:)`: every allowed character is kept, every
      other one is replaced by the `%HH` escapes of its UTF-8 bytes. */
  function PercentEncode(s: string, allowed: char -> bool): (r: string)
    ensures |s| <= |r| <= 12 * |s|
  {
    if s == [] then ""
    else (if allowed(s[0]) then [s[0]] else PercentBytes(Utf8Char(s[0])))
         + PercentEncode(s[1..], allowed)
  }

  /** A string made only of allowed characters is its own encoding. */
  lemma {:induction false} AllowedUnchanged(s: string, allowed: char -> bool)
    requires forall i :: 0 <= i < |s| ==> allowed(s[i])
    ensures PercentEncode(s, allowed) == s
  {
    if s != [] {
      AllowedUnchanged(s[1..], allowed);
      assert [s[0]] + s[1..] == s;
    }
  }

  /** An encoding consists of allowed characters of the input and of the escapes' `%` signs and
      hexadecimal digits. */
  lemma {:induction false} PercentEncodeAlphabet(s: string, allowed: char -> bool, i: nat)
    requires i < |PercentEncode(s, allowed)|
    ensures var c := PercentEncode(s, allowed)[i];
            (allowed(c) && c in s) || c == '%' || HexValue(c).Some?
  {
    if s != [] {
      var head := if allowed(s[0]) then [s[0]] else PercentBytes(Utf8Char(s[0]));
      assert PercentEncode(s, allowed) == head + PercentEncode(s[1..], allowed);
      if i < |head| {
        if !allowed(s[0]) {
          PercentBytesAlphabet(Utf8Char(s[0]), i);
        }
      } else {
        PercentEncodeAlphabet(s[1..], allowed, i - |head|);
      }
    }
  }

  lemma {:induction false} PercentBytesAlphabet(bs: seq<byte>, i: nat)
    requires i < |PercentBytes(bs)|
    ensures PercentBytes(bs)[i] == '%' || HexValue(PercentBytes(bs)[i]).Some?
  {
    if i >= 3 {
      PercentBytesAlphabet(bs[1..], i - 3);
    }
  }

  /** Reads `%HH` escapes back as bytes and every other character as its UTF-8 bytes; `None` on
      a `%` that is not followed by two hexadecimal digits. */
  function PercentDecodeBytes(s: string): Option<seq<byte>>
    decreases |s|
  {
    if s == [] then Some([])
    else if s[0] == '%' then
      if |s| >= 3 && HexValue(s[1]).Some? && HexValue(s[2]).Some? then
        Prepend([HexValue(s[1]).value * 16 + HexValue(s[2]).value], PercentDecodeBytes(s[3..]))
      else None
    else Prepend(Utf8Char(s[0]), PercentDecodeBytes(s[1..]))
  }

  function Prepend(bs: seq<byte>, rest: Option<seq<byte>>): Option<seq<byte>>
  {
    match rest
    case None => None
    case Some(r) => Some(bs + r)
  }

  lemma PrependEmpty(rest: Option<seq<byte>>)
    ensures Prepend([], rest) == rest
  {
    if rest.Some? {
      assert [] + rest.value == rest.value;
    }
  }

  lemma PrependPrepend(a: seq<byte>, b: seq<byte>, rest: Option<seq<byte>>)
    ensures Prepend(a, Prepend(b, rest)) == Prepend(a + b, rest)
  {
    if rest.Some? {
      assert a + (b + rest.value) == a + b + rest.value;
    }
  }

  /** Percent-decoding: the string the escapes and characters spell, read as UTF-8. */
  function PercentDecode(s: string): Option<string>
  {
    match PercentDecodeBytes(s)
    case None => None
    case Some(bs) => Utf8Decode(bs)
  }

  lemma {:induction false} DecodePercentBytes(bs: seq<byte>, t: string)
    ensures PercentDecodeBytes(PercentBytes(bs) + t) == Prepend(bs, PercentDecodeBytes(t))
  {
    if bs != [] {
      var b := bs[0];
      var s := PercentBytes(bs) + t;
      assert s == PercentByte(b) + (PercentBytes(bs[1..]) + t);
      assert s[1] == HexDigit(b / 16) && s[2] == HexDigit(b % 16);
      assert s[3..] == PercentBytes(bs[1..]) + t;
      DecodePercentBytes(bs[1..], t);
      PrependPrepend([b], bs[1..], PercentDecodeBytes(t));
      assert [b] + bs[1..] == bs;
    } else {
      assert PercentBytes(bs) + t == t;
      PrependEmpty(PercentDecodeBytes(t));
    }
  }

  /** Percent-decoding reads back the UTF-8 bytes of what was encoded, provided `%` itself is
      escaped. */
  lemma {:induction false} DecodePercentEncode(s: string, allowed: char -> bool, t: string)
    requires !allowed('%')
    ensures PercentDecodeBytes(PercentEncode(s, allowed) + t) ==
            Prepend(Utf8(s), PercentDecodeBytes(t))
  {
    if s != [] {
      var head := if allowed(s[0]) then [s[0]] else PercentBytes(Utf8Char(s[0]));
      var rest := PercentEncode(s[1..], allowed) + t;
      assert PercentEncode(s, allowed) + t == head + rest by {
        assert PercentEncode(s, allowed) == head + PercentEncode(s[1..], allowed);
      }
      DecodeHead(s[0], allowed, rest);
      DecodePercentEncode(s[1..], allowed, t);
      PrependPrepend(Utf8Char(s[0]), Utf8(s[1..]), PercentDecodeBytes(t));
    } else {
      assert PercentEncode(s, allowed) + t == t;
      PrependEmpty(PercentDecodeBytes(t));
    }
  }

  /** The encoding of one character decodes to its UTF-8 bytes, whatever follows it. */
  lemma DecodeHead(c: char, allowed: char -> bool, rest: string)
    requires !allowed('%')
    ensures var head := if allowed(c) then [c] else PercentBytes(Utf8Char(c));
            PercentDecodeBytes(head + rest) == Prepend(Utf8Char(c), PercentDecodeBytes(rest))
  {
    if allowed(c) {
      assert ([c] + rest)[1..] == rest;
    } else {
      DecodePercentBytes(Utf8Char(c), rest);
    }
  }

  /** Percent-decoding undoes percent-encoding whenever `%` is not an allowed character. */
  lemma PercentRoundTrip(s: string, allowed: char -> bool)
    requires !allowed('%')
    ensures PercentDecode(PercentEncode(s, allowed)) == Some(s)
  {
    var encoded := PercentEncode(s, allowed);
    DecodePercentEncode(s, allowed, "");
    assert encoded + "" == encoded;
    assert PercentDecodeBytes("") == Some([]);
    assert Utf8(s) + [] == Utf8(s);
    assert PercentDecodeBytes(encoded) == Some(Utf8(s));
    Utf8RoundTrip(s);
  }
}
