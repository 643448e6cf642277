/** `encodeURIComponent` and its inverse `decodeURIComponent`: the Encode and
    Decode operations of ECMA-262 (section 19.2.6) with the component sets, where
    the units left as they are are the ASCII letters and digits and
    `- _ . ! ~ * ' ( )`, and every other code point is written as the `%XX`
    escapes of its UTF-8 octets, in uppercase hexadecimal. */
module UriComponent {
  import opened Outcomes
  import opened Utf16

  /** The URIError both operations throw. */
  datatype UriError = UriError

  type Byte = b: int | 0 <= b < 0x100

  const Percent: CodeUnit := 0x25

  predicate IsAsciiAlphanumeric(u: CodeUnit)
  {
    0x30 <= u <= 0x39 || 0x41 <= u <= 0x5A || 0x61 <= u <= 0x7A
  }

  /** The units `encodeURIComponent` copies unchanged. */
  predicate IsUnreserved(u: CodeUnit)
  {
    || IsAsciiAlphanumeric(u)
    || u == 0x2D || u == 0x5F || u == 0x2E || u == 0x21 || u == 0x7E
    || u == 0x2A || u == 0x27 || u == 0x28 || u == 0x29
  }

  predicate IsUpperHexDigit(u: CodeUnit)
  {
    0x30 <= u <= 0x39 || 0x41 <= u <= 0x46
  }

  /** UTF-8: one octet below U+0080, two below U+0800, three below U+10000, four
      above. */
  function Utf8Encode(cp: int): (octets: seq<Byte>)
    requires IsScalarValue(cp)
    ensures 1 <= |octets| <= 4
  {
    if cp < 0x80 then [cp]
    else if cp < 0x800 then [0xC0 + cp / 0x40, 0x80 + cp % 0x40]
    else if cp < 0x1_0000 then [0xE0 + cp / 0x1000, 0x80 + cp / 0x40 % 0x40, 0x80 + cp % 0x40]
    else [0xF0 + cp / 0x4_0000, 0x80 + cp / 0x1000 % 0x40, 0x80 + cp / 0x40 % 0x40, 0x80 + cp % 0x40]
  }

  /** The uppercase hexadecimal digit for a value below 16. */
  function HexDigit(d: int): CodeUnit
    requires 0 <= d < 16
  {
    if d < 10 then 0x30 + d else 0x41 + d - 10
  }

  /** `%` and the two hexadecimal digits of one octet. */
  function EscapeOctet(b: Byte): JsString
  {
    [Percent, HexDigit(b / 16), HexDigit(b % 16)]
  }

  function EscapeOctets(octets: seq<Byte>): (t: JsString)
    ensures |t| == 3 * |octets|
  {
    if octets == [] then [] else EscapeOctet(octets[0]) + EscapeOctets(octets[1..])
  }

  /** Prefixes a successful result; an error stays an error. */
  function PrependOk(prefix: JsString, r: Result<JsString, UriError>): Result<JsString, UriError>
  {
    match r
    case Ok(t) => Ok(prefix + t)
    case Err(e) => Err(e)
  }

  /** `encodeURIComponent(s)`: unreserved units are copied; any other code point
      is escaped octet by octet; a lone surrogate throws a URIError. */
  function EncodeURIComponent(s: JsString): Result<JsString, UriError>
    decreases |s|
  {
    if s == [] then Ok([])
    else if IsUnreserved(s[0]) then PrependOk([s[0]], EncodeURIComponent(s[1..]))
    else
      var c := CodePointAt(s, 0);
      if c.isUnpairedSurrogate then Err(UriError)
      else PrependOk(EscapeOctets(Utf8Encode(c.codePoint)), EncodeURIComponent(s[c.codeUnitCount..]))
  }

  /** The value of a hexadecimal digit of either case. */
  function HexValue(u: CodeUnit): (v: Option<int>)
    ensures v.Some? ==> 0 <= v.value < 16
  {
    if 0x30 <= u <= 0x39 then Some(u as int - 0x30)
    else if 0x41 <= u <= 0x46 then Some(u as int - 0x41 + 10)
    else if 0x61 <= u <= 0x66 then Some(u as int - 0x61 + 10)
    else None
  }

  /** The octet that the `%XX` at the start of `t` escapes, if it is one. */
  function EscapedOctetAt(t: JsString): Option<Byte>
    requires 3 <= |t|
  {
    if t[0] != Percent then None
    else match (HexValue(t[1]), HexValue(t[2]))
      case (Some(hi), Some(lo)) => Some(hi * 16 + lo)
      case _ => None
  }

  /** The `n` escaped octets at the start of `t`, if they are all there. */
  function EscapedOctets(t: JsString, n: nat): (r: Option<seq<Byte>>)
    requires 3 * n <= |t|
    ensures r.Some? ==> |r.value| == n
  {
    if n == 0 then Some([])
    else match EscapedOctetAt(t)
      case None => None
      case Some(b) =>
        match EscapedOctets(t[3..], n - 1)
        case None => None
        case Some(more) => Some([b] + more)
  }

  /** The number of leading 1 bits of an octet: how many octets a UTF-8 sequence
      it leads has (0 for a single octet, 1 for a continuation octet). */
  function LeadingOnes(b: Byte): nat
  {
    if b < 0x80 then 0 else if b < 0xC0 then 1 else if b < 0xE0 then 2
    else if b < 0xF0 then 3 else if b < 0xF8 then 4 else if b < 0xFC then 5
    else if b < 0xFE then 6 else if b < 0xFF then 7 else 8
  }

  predicate IsContinuation(b: Byte)
  {
    0x80 <= b < 0xC0
  }

  /** The code point a multi-octet UTF-8 sequence encodes, when every octet after
      the first is a continuation octet and the sequence is the shortest encoding
      of a scalar value. */
  function Utf8Decode(octets: seq<Byte>): (cp: Option<int>)
    requires 2 <= |octets| <= 4 && LeadingOnes(octets[0]) == |octets|
    ensures cp.Some? ==> IsScalarValue(cp.value)
  {
    var n := |octets|;
    if !IsContinuation(octets[1]) || (n >= 3 && !IsContinuation(octets[2]))
       || (n == 4 && !IsContinuation(octets[3])) then None
    else if n == 2 then
      var cp := (octets[0] as int - 0xC0) * 0x40 + (octets[1] as int - 0x80);
      if cp < 0x80 then None else Some(cp)
    else if n == 3 then
      var cp := (octets[0] as int - 0xE0) * 0x1000 + (octets[1] as int - 0x80) * 0x40
        + (octets[2] as int - 0x80);
      if cp < 0x800 || 0xD800 <= cp <= 0xDFFF then None else Some(cp)
    else
      var cp := (octets[0] as int - 0xF0) * 0x4_0000 + (octets[1] as int - 0x80) * 0x1000
        + (octets[2] as int - 0x80) * 0x40 + (octets[3] as int - 0x80);
      if cp < 0x1_0000 || 0x10_FFFF < cp then None else Some(cp)
  }

  /** `decodeURIComponent(t)`: every `%XX` escape, and the continuation escapes a
      multi-octet lead requires, are replaced by the code point they spell in
      UTF-8; a malformed escape or octet sequence throws a URIError. */
  function DecodeURIComponent(t: JsString): Result<JsString, UriError>
    decreases |t|
  {
    if t == [] then Ok([])
    else if t[0] != Percent then PrependOk([t[0]], DecodeURIComponent(t[1..]))
    else if |t| < 3 then Err(UriError)
    else match EscapedOctetAt(t)
      case None => Err(UriError)
      case Some(b) =>
        var n := LeadingOnes(b);
        if n == 0 then PrependOk([b], DecodeURIComponent(t[3..]))
        else if n == 1 || n > 4 || |t| < 3 * n then Err(UriError)
        else match EscapedOctets(t[3..], n - 1)
          case None => Err(UriError)
          case Some(more) =>
            match Utf8Decode([b] + more)
            case None => Err(UriError)
            case Some(cp) => PrependOk(EncodeCodePoint(cp), DecodeURIComponent(t[3 * n..]))
  }

  // ---------------------------------------------------------------------------
  // Octets and escapes

  /** An escape reads back as the octet it was written for. */
  lemma EscapedOctetRoundTrip(b: Byte, rest: JsString)
    ensures EscapedOctetAt(EscapeOctet(b) + rest) == Some(b)
  {
    var t := EscapeOctet(b) + rest;
    assert t[0] == Percent && t[1] == HexDigit(b / 16) && t[2] == HexDigit(b % 16);
  }

  /** A run of escapes reads back as the octets it was written for. */
  lemma {:induction false} EscapedOctetsRoundTrip(octets: seq<Byte>, rest: JsString)
    ensures EscapedOctets(EscapeOctets(octets) + rest, |octets|) == Some(octets)
    decreases |octets|
  {
    if octets != [] {
      var t := EscapeOctets(octets) + rest;
      EscapedOctetRoundTrip(octets[0], EscapeOctets(octets[1..]) + rest);
      assert t == EscapeOctet(octets[0]) + (EscapeOctets(octets[1..]) + rest);
      assert t[3..] == EscapeOctets(octets[1..]) + rest;
      EscapedOctetsRoundTrip(octets[1..], rest);
      assert [octets[0]] + octets[1..] == octets;
    }
  }

  /** The shape of UTF-8: a single octet is the code point itself (below U+0080);
      a longer sequence is led by an octet whose leading 1 bits count the octets,
      and is followed by continuation octets; the length grows with the code point
      and is four exactly above U+FFFF. */
  lemma Utf8Shape(cp: int)
    requires IsScalarValue(cp)
    ensures var octets := Utf8Encode(cp);
      && (|octets| == 1 <==> cp < 0x80)
      && (|octets| == 1 ==> octets[0] == cp)
      && (|octets| <= 2 <==> cp < 0x800)
      && (|octets| <= 3 <==> cp < 0x1_0000)
      && (|octets| >= 2 ==> LeadingOnes(octets[0]) == |octets|)
      && (forall i | 1 <= i < |octets| :: IsContinuation(octets[i]))
  {
    if 0x1_0000 <= cp {
      assert cp / 0x4_0000 <= 4;
    }
  }

  /** UTF-8 decoding undoes UTF-8 encoding. */
  lemma Utf8RoundTrip(cp: int)
    requires IsScalarValue(cp)
    requires 0x80 <= cp
    ensures var octets := Utf8Encode(cp);
      2 <= |octets| && LeadingOnes(octets[0]) == |octets| && Utf8Decode(octets) == Some(cp)
  {
    Utf8Shape(cp);
    var r := cp % 0x40;
    var q := cp / 0x40;
    assert cp == q * 0x40 + r;
    if 0x800 <= cp {
      var r2 := q % 0x40;
      var q2 := q / 0x40;
      assert q == q2 * 0x40 + r2;
      assert cp / 0x1000 == q2;
      if 0x1_0000 <= cp {
        var r3 := q2 % 0x40;
        var q3 := q2 / 0x40;
        assert q2 == q3 * 0x40 + r3;
        assert cp / 0x4_0000 == q3;
        assert cp / 0x1000 % 0x40 == r3;
      }
    }
  }

  // ---------------------------------------------------------------------------
  // The round trip

  /** A unit that is not `%` decodes as itself. */
  lemma DecodePlainUnit(u: CodeUnit, rest: JsString)
    requires u != Percent
    ensures DecodeURIComponent([u] + rest) == PrependOk([u], DecodeURIComponent(rest))
  {
    assert ([u] + rest)[1..] == rest;
  }

  /** The escapes of one code point's UTF-8 octets decode as that code point's
      UTF-16 units. */
  lemma DecodeEscapedCodePoint(cp: int, rest: JsString)
    requires IsScalarValue(cp)
    ensures DecodeURIComponent(EscapeOctets(Utf8Encode(cp)) + rest)
         == PrependOk(EncodeCodePoint(cp), DecodeURIComponent(rest))
  {
    var octets := Utf8Encode(cp);
    var t := EscapeOctets(octets) + rest;
    Utf8Shape(cp);
    EscapedOctetRoundTrip(octets[0], EscapeOctets(octets[1..]) + rest);
    assert t == EscapeOctet(octets[0]) + (EscapeOctets(octets[1..]) + rest);
    assert t[0] == Percent;
    if cp < 0x80 {
      assert t[3..] == rest;
    } else {
      Utf8RoundTrip(cp);
      var n := |octets|;
      assert t[3..] == EscapeOctets(octets[1..]) + rest;
      EscapedOctetsRoundTrip(octets[1..], rest);
      assert [octets[0]] + octets[1..] == octets;
      assert t[3 * n..] == rest;
    }
  }

  /** decodeURIComponent undoes encodeURIComponent: whatever string the encoder
      accepts comes back unchanged. */
  lemma {:induction false} DecodeEncode(s: JsString)
    ensures EncodeURIComponent(s).Ok? ==> DecodeURIComponent(EncodeURIComponent(s).value) == Ok(s)
    decreases |s|
  {
    if s != [] && EncodeURIComponent(s).Ok? {
      if IsUnreserved(s[0]) {
        DecodeEncode(s[1..]);
        DecodeEncodeUnreserved(s);
      } else {
        DecodeEncode(s[CodePointAt(s, 0).codeUnitCount..]);
        DecodeEncodeEscaped(s);
      }
    }
  }

  /** The round trip over an unreserved first unit, given it for the rest. */
  lemma DecodeEncodeUnreserved(s: JsString)
    requires s != [] && IsUnreserved(s[0]) && EncodeURIComponent(s[1..]).Ok?
    requires DecodeURIComponent(EncodeURIComponent(s[1..]).value) == Ok(s[1..])
    ensures EncodeURIComponent(s).Ok? && DecodeURIComponent(EncodeURIComponent(s).value) == Ok(s)
  {
    DecodePlainUnit(s[0], EncodeURIComponent(s[1..]).value);
    assert [s[0]] + s[1..] == s;
  }

  /** The round trip over an escaped first code point, given it for the rest. */
  lemma DecodeEncodeEscaped(s: JsString)
    requires s != [] && !IsUnreserved(s[0]) && !CodePointAt(s, 0).isUnpairedSurrogate
    requires var tail := s[CodePointAt(s, 0).codeUnitCount..];
      EncodeURIComponent(tail).Ok? && DecodeURIComponent(EncodeURIComponent(tail).value) == Ok(tail)
    ensures EncodeURIComponent(s).Ok? && DecodeURIComponent(EncodeURIComponent(s).value) == Ok(s)
  {
    var c := CodePointAt(s, 0);
    CodePointAtSpec(s, 0);
    var tail := s[c.codeUnitCount..];
    DecodeEscapedCodePoint(c.codePoint, EncodeURIComponent(tail).value);
    assert s[..c.codeUnitCount] + tail == s;
  }

  // ---------------------------------------------------------------------------
  // When the encoder throws

  /** encodeURIComponent throws exactly when the string holds a lone surrogate. */
  lemma {:induction false} EncodeSucceedsIff(s: JsString)
    ensures EncodeURIComponent(s).Ok? <==> IsWellFormed(s)
    decreases |s|
  {
    if s != [] {
      var c := CodePointAt(s, 0);
      CodePointAtSpec(s, 0);
      if !c.isUnpairedSurrogate {
        var k := c.codeUnitCount;
        EncodeCodePointWellFormed(c.codePoint);
        assert s[..k][k - 1] == s[k - 1];
        WellFormedAppend(s[..k], s[k..]);
        assert s[..k] + s[k..] == s;
        EncodeSucceedsIff(s[k..]);
      } else {
        assert !PairedAt(s, 0);
      }
    }
  }

  // ---------------------------------------------------------------------------
  // What the encoder writes

  /** Text made only of unreserved units and `%XX` escapes in uppercase
      hexadecimal. */
  predicate IsPercentEncoded(t: JsString)
    decreases |t|
  {
    || t == []
    || (IsUnreserved(t[0]) && IsPercentEncoded(t[1..]))
    || (3 <= |t| && t[0] == Percent && IsUpperHexDigit(t[1]) && IsUpperHexDigit(t[2])
        && IsPercentEncoded(t[3..]))
  }

  /** Escaped octets followed by percent-encoded text are percent-encoded. */
  lemma {:induction false} EscapeOctetsPercentEncoded(octets: seq<Byte>, rest: JsString)
    requires IsPercentEncoded(rest)
    ensures IsPercentEncoded(EscapeOctets(octets) + rest)
    decreases |octets|
  {
    if octets != [] {
      var t := EscapeOctets(octets) + rest;
      assert t == EscapeOctet(octets[0]) + (EscapeOctets(octets[1..]) + rest);
      assert t[3..] == EscapeOctets(octets[1..]) + rest;
      assert t[0] == Percent && t[1] == HexDigit(octets[0] / 16) && t[2] == HexDigit(octets[0] % 16);
      assert IsUpperHexDigit(t[1]) && IsUpperHexDigit(t[2]);
      EscapeOctetsPercentEncoded(octets[1..], rest);
    } else {
      assert EscapeOctets(octets) + rest == rest;
    }
  }

  /** Everything encodeURIComponent returns is percent-encoded. */
  lemma {:induction false} EncodeIsPercentEncoded(s: JsString)
    ensures EncodeURIComponent(s).Ok? ==> IsPercentEncoded(EncodeURIComponent(s).value)
    decreases |s|
  {
    if s != [] && EncodeURIComponent(s).Ok? {
      var t := EncodeURIComponent(s).value;
      if IsUnreserved(s[0]) {
        EncodeIsPercentEncoded(s[1..]);
        assert t[1..] == EncodeURIComponent(s[1..]).value;
      } else {
        var c := CodePointAt(s, 0);
        EncodeIsPercentEncoded(s[c.codeUnitCount..]);
        EscapeOctetsPercentEncoded(Utf8Encode(c.codePoint), EncodeURIComponent(s[c.codeUnitCount..]).value);
      }
    }
  }

  /** Each unit of percent-encoded text is unreserved, `%` or an uppercase
      hexadecimal digit, so none of the delimiters of a URL query (`&`, `=`, `#`,
      `+`, space, line feed) can appear in it. */
  lemma {:induction false} PercentEncodedUnits(t: JsString)
    requires IsPercentEncoded(t)
    ensures forall i | 0 <= i < |t| :: IsUnreserved(t[i]) || t[i] == Percent || IsUpperHexDigit(t[i])
    decreases |t|
  {
    if t != [] {
      var k := if IsUnreserved(t[0]) && IsPercentEncoded(t[1..]) then 1 else 3;
      PercentEncodedUnits(t[k..]);
      forall i | k <= i < |t|
        ensures IsUnreserved(t[i]) || t[i] == Percent || IsUpperHexDigit(t[i])
      {
        assert t[i] == t[k..][i - k];
      }
    }
  }

  // ---------------------------------------------------------------------------
  // How long the encoding is

  /** Each code unit becomes at least one and at most nine units (a unit below
      U+0800 escapes to at most six, one up to U+FFFF to nine, a surrogate pair to
      twelve); the text is unchanged exactly when every unit is unreserved. */
  lemma {:induction false} EncodeLength(s: JsString)
    ensures EncodeURIComponent(s).Ok? ==>
      && |s| <= |EncodeURIComponent(s).value| <= 9 * |s|
      && (|EncodeURIComponent(s).value| == |s| <==> forall i | 0 <= i < |s| :: IsUnreserved(s[i]))
    decreases |s|
  {
    if s != [] && EncodeURIComponent(s).Ok? {
      var t := EncodeURIComponent(s).value;
      if IsUnreserved(s[0]) {
        EncodeLength(s[1..]);
        assert forall i | 1 <= i < |s| :: s[i] == s[1..][i - 1];
      } else {
        var c := CodePointAt(s, 0);
        CodePointAtSpec(s, 0);
        Utf8Shape(c.codePoint);
        EncodeLength(s[c.codeUnitCount..]);
      }
    }
  }

  /** An escaped code point takes three units per UTF-8 octet: 3 below U+0080,
      6 below U+0800, 9 below U+10000 and 12 above. With `EncodeOne`, which copies
      an unreserved unit as one unit, these are the widths of every code point. */
  lemma EscapedWidth(cp: int)
    requires IsScalarValue(cp)
    ensures |EscapeOctets(Utf8Encode(cp))| ==
      if cp < 0x80 then 3 else if cp < 0x800 then 6 else if cp < 0x1_0000 then 9 else 12
  {
  }

  /** Text of unreserved units only is its own encoding. */
  lemma {:induction false} EncodeUnreservedUnchanged(s: JsString)
    requires forall i | 0 <= i < |s| :: IsUnreserved(s[i])
    ensures EncodeURIComponent(s) == Ok(s)
    decreases |s|
  {
    if s != [] {
      EncodeUnreservedUnchanged(s[1..]);
      assert [s[0]] + s[1..] == s;
    }
  }

  // ---------------------------------------------------------------------------
  // One code point at a time

  /** Two results laid end to end; the first error wins. */
  function ConcatOk(r1: Result<JsString, UriError>, r2: Result<JsString, UriError>): Result<JsString, UriError>
  {
    match r1
    case Ok(t) => PrependOk(t, r2)
    case Err(e) => Err(e)
  }

  /** The encoder writes one code point at the front of any text on its own: an
      unreserved unit is copied as it is, and any other code point becomes the
      escapes of its UTF-8 octets, whatever follows. */
  lemma EncodeOne(cp: int, rest: JsString)
    requires IsScalarValue(cp)
    ensures EncodeURIComponent(EncodeCodePoint(cp) + rest) ==
      PrependOk(if cp < 0x1_0000 && IsUnreserved(cp) then [cp] else EscapeOctets(Utf8Encode(cp)),
                EncodeURIComponent(rest))
  {
    var s := EncodeCodePoint(cp) + rest;
    CodePointAtEncoded(cp, rest);
    if cp < 0x1_0000 {
      assert s[0] == cp && s[1..] == rest;
    } else {
      assert s[0] == 0xD800 + (cp - 0x1_0000) / 0x400;
      assert s[2..] == rest;
    }
  }

  /** The encoder works piece by piece: the encoding of `a + b` is that of `a`
      followed by that of `b`, and it throws when either part does, unless a high
      surrogate ending `a` pairs with a low one starting `b`. */
  lemma {:induction false} EncodeAppend(a: JsString, b: JsString)
    requires a == [] || b == [] || !IsHighSurrogate(a[|a| - 1]) || !IsLowSurrogate(b[0])
    ensures EncodeURIComponent(a + b) == ConcatOk(EncodeURIComponent(a), EncodeURIComponent(b))
    decreases |a|
  {
    if a == [] {
      assert a + b == b;
      if EncodeURIComponent(b).Ok? {
        assert [] + EncodeURIComponent(b).value == EncodeURIComponent(b).value;
      }
    } else {
      var s := a + b;
      assert s[0] == a[0];
      if IsUnreserved(a[0]) {
        assert s[1..] == a[1..] + b;
        EncodeAppend(a[1..], b);
        AppendAssoc(EncodeURIComponent(a[1..]), EncodeURIComponent(b), [a[0]]);
      } else {
        var c := CodePointAt(a, 0);
        if |a| >= 2 {
          assert s[1] == a[1];
        }
        assert CodePointAt(s, 0) == c;
        if !c.isUnpairedSurrogate {
          var k := c.codeUnitCount;
          assert s[k..] == a[k..] + b;
          if k < |a| {
            assert a[k..][|a[k..]| - 1] == a[|a| - 1];
          }
          EncodeAppend(a[k..], b);
          AppendAssoc(EncodeURIComponent(a[k..]), EncodeURIComponent(b),
                      EscapeOctets(Utf8Encode(c.codePoint)));
        }
      }
    }
  }

  /** Prefixing distributes over laying two results end to end. */
  lemma AppendAssoc(r1: Result<JsString, UriError>, r2: Result<JsString, UriError>, p: JsString)
    ensures PrependOk(p, ConcatOk(r1, r2)) == ConcatOk(PrependOk(p, r1), r2)
  {
    if r1.Ok? && r2.Ok? {
      assert p + (r1.value + r2.value) == (p + r1.value) + r2.value;
    }
  }
}
