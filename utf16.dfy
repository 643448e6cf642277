/** JavaScript strings as sequences of UTF-16 code units, which may hold lone
    surrogates, and the ECMA-262 helpers that read and write code points in them
    (CodePointAt, UTF16EncodeCodePoint). */
module Utf16 {

  /** A UTF-16 code unit. */
  type CodeUnit = n: int | 0 <= n < 0x1_0000

  /** A JavaScript string value. */
  type JsString = seq<CodeUnit>

  predicate IsHighSurrogate(u: CodeUnit)
  {
    0xD800 <= u <= 0xDBFF
  }

  predicate IsLowSurrogate(u: CodeUnit)
  {
    0xDC00 <= u <= 0xDFFF
  }

  /** A Unicode code point that is not a surrogate. */
  predicate IsScalarValue(cp: int)
  {
    0 <= cp <= 0x10_FFFF && !(0xD800 <= cp <= 0xDFFF)
  }

  /** The unit at index i is not a lone surrogate: a high surrogate is followed by
      a low one, and a low surrogate follows a high one. */
  predicate PairedAt(s: JsString, i: int)
    requires 0 <= i < |s|
  {
    && (IsHighSurrogate(s[i]) ==> i + 1 < |s| && IsLowSurrogate(s[i + 1]))
    && (IsLowSurrogate(s[i]) ==> 0 < i && IsHighSurrogate(s[i - 1]))
  }

  /** Well-formed UTF-16: the string holds no lone surrogate. */
  predicate IsWellFormed(s: JsString)
  {
    forall i | 0 <= i < |s| :: PairedAt(s, i)
  }

  /** UTF16EncodeCodePoint: one unit below U+10000, a surrogate pair above. */
  function EncodeCodePoint(cp: int): (units: JsString)
    requires IsScalarValue(cp)
  {
    if cp < 0x1_0000 then [cp]
    else [0xD800 + (cp - 0x1_0000) / 0x400, 0xDC00 + (cp - 0x1_0000) % 0x400]
  }

  /** The record CodePointAt returns. */
  datatype CodePointRecord = CodePointRecord(codePoint: int, codeUnitCount: nat, isUnpairedSurrogate: bool)

  /** CodePointAt(s, k): the code point starting at index k, how many units it
      spans, and whether the unit there is a surrogate without its partner. */
  function CodePointAt(s: JsString, k: nat): (r: CodePointRecord)
    requires k < |s|
    ensures 1 <= r.codeUnitCount <= 2 && k + r.codeUnitCount <= |s|
    ensures !r.isUnpairedSurrogate ==> IsScalarValue(r.codePoint)
  {
    var first := s[k] as int;
    if !IsHighSurrogate(first) && !IsLowSurrogate(first) then CodePointRecord(first, 1, false)
    else if IsLowSurrogate(first) || k + 1 == |s| then CodePointRecord(first, 1, true)
    else if !IsLowSurrogate(s[k + 1]) then CodePointRecord(first, 1, true)
    else CodePointRecord((first - 0xD800) * 0x400 + (s[k + 1] as int - 0xDC00) + 0x1_0000, 2, false)
  }

  /** When CodePointAt finds a code point, the units it spans are exactly that
      code point's UTF-16 encoding; a single unit holds a code point below U+10000
      and a pair one above. It reports an unpaired surrogate exactly when the unit
      at k is a low surrogate, or a high one not followed by a low one. */
  lemma CodePointAtSpec(s: JsString, k: nat)
    requires k < |s|
    ensures var r := CodePointAt(s, k);
      && (r.isUnpairedSurrogate <==>
            IsLowSurrogate(s[k]) || (IsHighSurrogate(s[k]) && (k + 1 == |s| || !IsLowSurrogate(s[k + 1]))))
      && (!r.isUnpairedSurrogate ==>
        && s[k..k + r.codeUnitCount] == EncodeCodePoint(r.codePoint)
        && (r.codeUnitCount == 1 <==> r.codePoint < 0x1_0000))
  {
    var r := CodePointAt(s, k);
    if !r.isUnpairedSurrogate && r.codeUnitCount == 2 {
      var hi, lo := s[k] as int - 0xD800, s[k + 1] as int - 0xDC00;
      assert r.codePoint - 0x1_0000 == hi * 0x400 + lo;
      SplitPairOffset(hi, lo);
    }
  }

  /** The offset above U+10000 that a surrogate pair carries splits back into the
      pair's two 10-bit halves. */
  lemma SplitPairOffset(hi: int, lo: int)
    requires 0 <= hi < 0x400 && 0 <= lo < 0x400
    ensures (hi * 0x400 + lo) / 0x400 == hi && (hi * 0x400 + lo) % 0x400 == lo
  {
  }

  /** The unit CodePointAt stops at, read from an encoded code point, is that code
      point again: UTF-16 encoding and decoding are inverse. */
  lemma {:induction false} CodePointAtEncoded(cp: int, rest: JsString)
    requires IsScalarValue(cp)
    ensures var r := CodePointAt(EncodeCodePoint(cp) + rest, 0);
      && !r.isUnpairedSurrogate
      && r.codePoint == cp
      && r.codeUnitCount == |EncodeCodePoint(cp)|
  {
    if cp >= 0x1_0000 {
      var v := cp - 0x1_0000;
      assert v / 0x400 < 0x400;
      assert v == v / 0x400 * 0x400 + v % 0x400;
    }
  }

  /** Appending keeps well-formedness, and loses it, exactly as the parts do,
      unless a high surrogate at the end of `a` meets a low one at the start of `b`. */
  lemma WellFormedAppend(a: JsString, b: JsString)
    requires a == [] || b == [] || !IsHighSurrogate(a[|a| - 1]) || !IsLowSurrogate(b[0])
    ensures IsWellFormed(a + b) <==> IsWellFormed(a) && IsWellFormed(b)
  {
    var s := a + b;
    forall i | 0 <= i < |a| ensures PairedAt(s, i) <==> PairedAt(a, i) {
      PairedAtAppendLeft(a, b, i);
    }
    forall j | 0 <= j < |b| ensures PairedAt(s, |a| + j) <==> PairedAt(b, j) {
      PairedAtAppendRight(a, b, j);
    }
    if IsWellFormed(a) && IsWellFormed(b) {
      forall i | 0 <= i < |s| ensures PairedAt(s, i) {
        if |a| <= i {
          PairedAtAppendRight(a, b, i - |a|);
        }
      }
    }
  }

  /** A unit of `a` is paired in `a + b` exactly when it is paired in `a`. */
  lemma PairedAtAppendLeft(a: JsString, b: JsString, i: int)
    requires a == [] || b == [] || !IsHighSurrogate(a[|a| - 1]) || !IsLowSurrogate(b[0])
    requires 0 <= i < |a|
    ensures PairedAt(a + b, i) <==> PairedAt(a, i)
  {
    var s := a + b;
    assert s[i] == a[i];
    if 0 < i {
      assert s[i - 1] == a[i - 1];
    }
    if i + 1 < |a| {
      assert s[i + 1] == a[i + 1];
    } else if b != [] {
      assert s[i + 1] == b[0];
    }
  }

  /** A unit of `b` is paired in `a + b` exactly when it is paired in `b`. */
  lemma PairedAtAppendRight(a: JsString, b: JsString, j: int)
    requires a == [] || b == [] || !IsHighSurrogate(a[|a| - 1]) || !IsLowSurrogate(b[0])
    requires 0 <= j < |b|
    ensures PairedAt(a + b, |a| + j) <==> PairedAt(b, j)
  {
    var s := a + b;
    assert s[|a| + j] == b[j];
    if j + 1 < |b| {
      assert s[|a| + j + 1] == b[j + 1];
    }
    if 0 < j {
      assert s[|a| + j - 1] == b[j - 1];
    } else if a != [] {
      assert s[|a| - 1] == a[|a| - 1];
    }
  }

  /** The encoding of one code point is well-formed, never starts with a low
      surrogate and never ends with a high one. */
  lemma EncodeCodePointWellFormed(cp: int)
    requires IsScalarValue(cp)
    ensures var u := EncodeCodePoint(cp);
      IsWellFormed(u) && !IsLowSurrogate(u[0]) && !IsHighSurrogate(u[|u| - 1])
  {
    var u := EncodeCodePoint(cp);
    if cp >= 0x1_0000 {
      assert (cp - 0x1_0000) / 0x400 < 0x400;
      assert IsHighSurrogate(u[0]) && IsLowSurrogate(u[1]);
      assert PairedAt(u, 0) && PairedAt(u, 1);
    } else {
      assert PairedAt(u, 0);
    }
  }

  /** A Dafny string (Unicode scalar values) as the JavaScript string a literal
      with the same text denotes: each character in UTF-16. */
  function FromString(s: string): (r: JsString)
    decreases |s|
  {
    if s == [] then [] else EncodeCodePoint(s[0] as int) + FromString(s[1..])
  }

  /** A string literal is well-formed UTF-16 and has no surrogate at either edge
      that could pair with a neighbour. */
  lemma {:induction false} FromStringWellFormed(s: string)
    ensures var r := FromString(s);
      && IsWellFormed(r)
      && (r == [] || !IsLowSurrogate(r[0]))
      && (r == [] || !IsHighSurrogate(r[|r| - 1]))
    decreases |s|
  {
    if s != [] {
      var u := EncodeCodePoint(s[0] as int);
      FromStringWellFormed(s[1..]);
      EncodeCodePointWellFormed(s[0] as int);
      WellFormedAppend(u, FromString(s[1..]));
      var r := FromString(s);
      assert r[0] == u[0];
      if FromString(s[1..]) == [] {
        assert r == u;
      } else {
        assert r[|r| - 1] == FromString(s[1..])[|FromString(s[1..])| - 1];
      }
    }
  }

  /** A character below U+D800 that a string does not contain is not among the
      units of its UTF-16 form. */
  lemma {:induction false} FromStringAvoids(s: string, c: char)
    requires (c as int) < 0xD800 && c !in s
    ensures (c as int) !in FromString(s)
    decreases |s|
  {
    if s != [] {
      FromStringAvoids(s[1..], c);
      var cp := s[0] as int;
      if cp >= 0x1_0000 {
        assert (cp - 0x1_0000) / 0x400 < 0x400;
      }
    }
  }
}
