/**
  `encodeURIComponent` and `decodeURIComponent`: the Encode and Decode
  operations of ECMA-262 section 19.2.6 (URI Handling Functions), which
  percent-encode the UTF-8 octets of every code point outside the unreserved
  set, in the `%XY` form of section 2.1 of RFC 3986 with upper-case hex digits.

  Strings here are sequences of Unicode scalar values, so the lone-surrogate
  `URIError` of Encode cannot arise.
 */
module UriEncoding {
  import opened Options

  type Byte = b: int | 0 <= b < 256

  // ---------------------------------------------------------------------
  // Character classes
  // ---------------------------------------------------------------------

  /** ECMA-262's unreserved set for URI components: ASCII letters, decimal
      digits and the marks `- _ . ! ~ * ' ( )`. */
  predicate IsUnreserved(c: char) {
    || 'A' <= c <= 'Z' || 'a' <= c <= 'z' || '0' <= c <= '9'
    || c == '-' || c == '_' || c == '.' || c == '!' || c == '~'
    || c == '*' || c == '\'' || c == '(' || c == ')'
  }

  const UpperHexDigits: string := "0123456789ABCDEF"

  predicate IsUpperHex(c: char) {
    '0' <= c <= '9' || 'A' <= c <= 'F'
  }

  /** Decode accepts hex digits of either case. */
  predicate IsHex(c: char) {
    '0' <= c <= '9' || 'A' <= c <= 'F' || 'a' <= c <= 'f'
  }

  function HexDigit(n: int): (c: char)
    requires 0 <= n < 16
    ensures IsUpperHex(c)
  {
    UpperHexDigits[n]
  }

  function HexValue(c: char): (n: int)
    requires IsHex(c)
    ensures 0 <= n < 16
  {
    if '0' <= c <= '9' then c as int - '0' as int
    else if 'A' <= c <= 'F' then c as int - 'A' as int + 10
    else c as int - 'a' as int + 10
  }

  lemma HexValueOfDigit(n: int)
    requires 0 <= n < 16
    ensures HexValue(HexDigit(n)) == n
  {
  }

  // ---------------------------------------------------------------------
  // UTF-8
  // ---------------------------------------------------------------------

  /** The UTF-8 octets of a code point (section 3 of RFC 3629). */
  function Utf8(c: char): (bs: seq<Byte>)
    ensures 1 <= |bs| <= 4
    ensures |bs| == 1 <==> c as int < 0x80
  {
    var v := c as int;
    if v < 0x80 then [v]
    else if v < 0x800 then [0xC0 + v / 64, 0x80 + v % 64]
    else if v < 0x1_0000 then [0xE0 + v / 4096, 0x80 + (v / 64) % 64, 0x80 + v % 64]
    else [0xF0 + v / 262144, 0x80 + (v / 4096) % 64, 0x80 + (v / 64) % 64, 0x80 + v % 64]
  }

  /** The number of octets a lead octet announces; 0 for an octet that cannot
      start a sequence (a continuation octet, or 0xF8 and above). */
  function Utf8Length(lead: Byte): (n: nat)
    ensures n <= 4
  {
    if lead < 0x80 then 1
    else if lead < 0xC0 then 0
    else if lead < 0xE0 then 2
    else if lead < 0xF0 then 3
    else if lead < 0xF8 then 4
    else 0
  }

  predicate IsContinuation(b: Byte) {
    0x80 <= b < 0xC0
  }

  predicate IsScalar(v: int) {
    0 <= v < 0xD800 || 0xE000 <= v <= 0x10_FFFF
  }

  /** The code point of a complete octet sequence, or None when the octets are
      not the shortest UTF-8 form of a Unicode scalar value. */
  function Utf8Decode(bs: seq<Byte>): (r: Option<char>)
    requires 1 <= |bs| <= 4 && Utf8Length(bs[0]) == |bs|
  {
    if |bs| == 1 then Some(bs[0] as char)
    else if exists i :: 1 <= i < |bs| && !IsContinuation(bs[i]) then None
    else
      var b0, b1 := bs[0] as int, bs[1] as int;
      var v :=
        if |bs| == 2 then (b0 - 0xC0) * 64 + (b1 - 0x80)
        else if |bs| == 3 then (b0 - 0xE0) * 4096 + (b1 - 0x80) * 64 + (bs[2] as int - 0x80)
        else (b0 - 0xF0) * 262144 + (b1 - 0x80) * 4096 + (bs[2] as int - 0x80) * 64 + (bs[3] as int - 0x80);
      var least := if |bs| == 2 then 0x80 else if |bs| == 3 then 0x800 else 0x1_0000;
      if least <= v && IsScalar(v) then Some(v as char) else None
  }

  /** UTF-8 decoding inverts UTF-8 encoding. */
  lemma Utf8RoundTrip(c: char)
    ensures Utf8Length(Utf8(c)[0]) == |Utf8(c)|
    ensures Utf8Decode(Utf8(c)) == Some(c)
  {
    var v := c as int;
    var bs := Utf8(c);
    if v < 0x80 {
    } else if v < 0x800 {
      assert v == (v / 64) * 64 + v % 64;
    } else if v < 0x1_0000 {
      Split3(v);
    } else {
      Split4(v);
    }
  }

  lemma Split3(v: int)
    requires 0x800 <= v < 0x1_0000
    ensures v == (v / 4096) * 4096 + ((v / 64) % 64) * 64 + v % 64
  {
    var q := v / 64;
    assert v == q * 64 + v % 64;
    assert q == (q / 64) * 64 + q % 64;
    assert q / 64 == v / 4096;
  }

  lemma Split4(v: int)
    requires 0x1_0000 <= v <= 0x10_FFFF
    ensures v / 262144 < 8
    ensures v == (v / 262144) * 262144 + ((v / 4096) % 64) * 4096 + ((v / 64) % 64) * 64 + v % 64
  {
    var q := v / 64;
    var p := q / 64;
    assert v == q * 64 + v % 64;
    assert q == p * 64 + q % 64;
    assert p == (p / 64) * 64 + p % 64;
    assert p == v / 4096;
    assert p / 64 == v / 262144;
  }

  // ---------------------------------------------------------------------
  // Encode
  // ---------------------------------------------------------------------

  /** One octet as `%XY`. */
  function PctOctet(b: Byte): (t: string)
    ensures |t| == 3 && t[0] == '%' && IsUpperHex(t[1]) && IsUpperHex(t[2])
  {
    ['%', HexDigit(b / 16), HexDigit(b % 16)]
  }

  function PctOctets(bs: seq<Byte>): (t: string)
    ensures |t| == 3 * |bs|
  {
    if bs == [] then [] else PctOctet(bs[0]) + PctOctets(bs[1..])
  }

  /** One code point: itself when unreserved, otherwise its escaped octets. */
  function EncodeChar(c: char): (t: string)
    ensures IsUnreserved(c) ==> t == [c]
    ensures !IsUnreserved(c) ==> |t| == 3 * |Utf8(c)| && t[0] == '%'
  {
    if IsUnreserved(c) then [c] else PctOctets(Utf8(c))
  }

  /** `encodeURIComponent(s)`. */
  function Encode(s: string): (t: string)
    ensures |t| >= |s|
  {
    if s == [] then [] else EncodeChar(s[0]) + Encode(s[1..])
  }

  /** The shape of an encoded string: unreserved characters and `%XY` triples
      with upper-case hex digits, nothing else. */
  predicate IsEncodedForm(t: string)
    decreases |t|
  {
    if t == [] then true
    else if IsUnreserved(t[0]) then IsEncodedForm(t[1..])
    else
      && |t| >= 3 && t[0] == '%' && IsUpperHex(t[1]) && IsUpperHex(t[2])
      && IsEncodedForm(t[3..])
  }

  lemma {:induction false} EncodedFormAppend(a: string, b: string)
    requires IsEncodedForm(a) && IsEncodedForm(b)
    ensures IsEncodedForm(a + b)
    decreases |a|
  {
    if a == [] {
      assert a + b == b;
    } else if IsUnreserved(a[0]) {
      assert (a + b)[1..] == a[1..] + b;
      EncodedFormAppend(a[1..], b);
    } else {
      assert (a + b)[3..] == a[3..] + b;
      EncodedFormAppend(a[3..], b);
    }
  }

  lemma {:induction false} PctOctetsForm(bs: seq<Byte>)
    ensures IsEncodedForm(PctOctets(bs))
  {
    if bs != [] {
      var t := PctOctets(bs);
      PctOctetsForm(bs[1..]);
      assert t[3..] == PctOctets(bs[1..]);
    }
  }

  /** Every result of Encode consists only of unreserved characters and `%XY`
      triples. */
  lemma {:induction false} EncodeForm(s: string)
    ensures IsEncodedForm(Encode(s))
  {
    if s != [] {
      if IsUnreserved(s[0]) {
        assert IsEncodedForm([s[0]]);
      } else {
        PctOctetsForm(Utf8(s[0]));
      }
      EncodeForm(s[1..]);
      EncodedFormAppend(EncodeChar(s[0]), Encode(s[1..]));
    }
  }

  /** Encoding distributes over concatenation. */
  lemma {:induction false} EncodeAppend(a: string, b: string)
    ensures Encode(a + b) == Encode(a) + Encode(b)
  {
    if a == [] {
      assert a + b == b;
    } else {
      assert (a + b)[1..] == a[1..] + b;
      EncodeAppend(a[1..], b);
    }
  }

  // ---------------------------------------------------------------------
  // Decode
  // ---------------------------------------------------------------------

  /** The octet escaped by the `%XY` at the front of `t`, if it is one. */
  function ReadOctet(t: string): (r: Option<Byte>)
  {
    if |t| >= 3 && t[0] == '%' && IsHex(t[1]) && IsHex(t[2])
    then Some(HexValue(t[1]) * 16 + HexValue(t[2]))
    else None
  }

  /** `n` consecutive `%XY` escapes at the front of `t`. */
  function ReadOctets(t: string, n: nat): (r: Option<seq<Byte>>)
    ensures r.Some? ==> |r.value| == n && |t| >= 3 * n
  {
    if n == 0 then Some([])
    else match ReadOctet(t)
      case None => None
      case Some(b) =>
        match ReadOctets(t[3..], n - 1)
        case None => None
        case Some(rest) => Some([b] + rest)
  }

  /** The code point escaped at the front of `t` (which starts with `%`) and the
      number of characters its escapes occupy; None where Decode throws. */
  function ReadEscaped(t: string): (r: Option<(char, nat)>)
    ensures r.Some? ==> 3 <= r.value.1 <= |t|
  {
    match ReadOctet(t)
    case None => None
    case Some(lead) =>
      var n := Utf8Length(lead);
      if n == 0 then None
      else match ReadOctets(t, n)
        case None => None
        case Some(bs) =>
          assert bs[0] == lead;
          match Utf8Decode(bs)
          case None => None
          case Some(c) => Some((c, 3 * n))
  }

  /** `decodeURIComponent(t)`: None stands for the `URIError` it throws. Every
      character other than `%` is copied; every escape is decoded, since the
      reserved set of the component variant is empty. */
  function Decode(t: string): (r: Option<string>)
    ensures r.Some? ==> |r.value| <= |t|
    decreases |t|
  {
    if t == [] then Some([])
    else if t[0] != '%' then
      match Decode(t[1..])
      case None => None
      case Some(rest) => Some([t[0]] + rest)
    else
      match ReadEscaped(t)
      case None => None
      case Some((c, k)) =>
        match Decode(t[k..])
        case None => None
        case Some(rest) => Some([c] + rest)
  }

  lemma ReadPctOctet(b: Byte, rest: string)
    ensures ReadOctet(PctOctet(b) + rest) == Some(b)
  {
    HexValueOfDigit(b / 16);
    HexValueOfDigit(b % 16);
  }

  lemma {:induction false} ReadPctOctets(bs: seq<Byte>, rest: string)
    ensures ReadOctets(PctOctets(bs) + rest, |bs|) == Some(bs)
  {
    if bs != [] {
      var tail := PctOctets(bs[1..]) + rest;
      var t := PctOctets(bs) + rest;
      assert t == PctOctet(bs[0]) + tail;
      ReadPctOctet(bs[0], tail);
      assert t[3..] == tail;
      ReadPctOctets(bs[1..], rest);
      assert ReadOctets(t, |bs|) == Some([bs[0]] + bs[1..]);
      assert [bs[0]] + bs[1..] == bs;
    }
  }

  /** The escapes of a code point's octets read back as that code point. */
  lemma ReadEscapedOctets(c: char, rest: string)
    requires !IsUnreserved(c)
    ensures ReadEscaped(PctOctets(Utf8(c)) + rest) == Some((c, 3 * |Utf8(c)|))
  {
    var bs := Utf8(c);
    var t := PctOctets(bs) + rest;
    Utf8RoundTrip(c);
    ReadPctOctets(bs, rest);
    assert t == PctOctet(bs[0]) + (PctOctets(bs[1..]) + rest);
    ReadPctOctet(bs[0], PctOctets(bs[1..]) + rest);
    assert ReadOctet(t) == Some(bs[0]);
  }

  /** Decoding one encoded code point in front of any text yields that code
      point in front of the decoding of the text. */
  lemma DecodeEncodeChar(c: char, rest: string)
    ensures Decode(EncodeChar(c) + rest) ==
      match Decode(rest)
      case None => None
      case Some(r) => Some([c] + r)
  {
    var t := EncodeChar(c) + rest;
    if IsUnreserved(c) {
      assert t[0] == c && t[1..] == rest;
    } else {
      var k := 3 * |Utf8(c)|;
      ReadEscapedOctets(c, rest);
      assert t[0] == '%';
      assert t[k..] == rest;
    }
  }

  /** `decodeURIComponent(encodeURIComponent(s)) == s` for every string. */
  lemma {:induction false} DecodeEncode(s: string)
    ensures Decode(Encode(s)) == Some(s)
  {
    if s != [] {
      DecodeEncode(s[1..]);
      DecodeEncodeChar(s[0], Encode(s[1..]));
      assert [s[0]] + s[1..] == s;
    }
  }

  /** Encode is injective: different texts never share an encoding. */
  lemma EncodeInjective(s1: string, s2: string)
    requires Encode(s1) == Encode(s2)
    ensures s1 == s2
  {
    DecodeEncode(s1);
    DecodeEncode(s2);
  }

  lemma EncodeExamples()
    ensures Encode("a b") == "a%20b"
    ensures Encode("\n") == "%0A"
    ensures Encode("(x)!") == "(x)!"
  {
    assert Utf8(' ') == [0x20];
    assert Utf8('\n') == [0x0A];
    assert Encode("b") == "b";
    assert Encode(" b") == "%20" + "b";
  }
}
