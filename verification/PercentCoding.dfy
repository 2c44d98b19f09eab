/**
 Percent-encoded UTF-8, as `urllib.parse.quote(name, safe='')` writes it and section 3.2 of RFC 5987
 reads it. Text is a sequence of code points.
 */
module PercentCoding {
  import opened Wrappers

  type Text = seq<nat>
  type Bytes = seq<nat>

  /** A code point that UTF-8 can carry. */
  predicate IsScalar(c: nat) {
    c < 0xD800 || 0xE000 <= c < 0x110000
  }

  function EncodePoint(c: nat): Bytes {
    if c < 0x80 then [c]
    else if c < 0x800 then [0xC0 + c / 64, 0x80 + c % 64]
    else if c < 0x10000 then [0xE0 + c / 64 / 64, 0x80 + c / 64 % 64, 0x80 + c % 64]
    else [0xF0 + c / 64 / 64 / 64, 0x80 + c / 64 / 64 % 64, 0x80 + c / 64 % 64, 0x80 + c % 64]
  }

  function EncodeUtf8(s: Text): Bytes {
    if s == [] then [] else EncodePoint(s[0]) + EncodeUtf8(s[1..])
  }

  predicate IsTail(b: nat) {
    0x80 <= b < 0xC0
  }

  /** Append the six bits of a tail byte. */
  function Shift(high: nat, tail: nat): nat
    requires IsTail(tail)
  {
    high * 64 + (tail - 0x80)
  }

  /** The first code point and the number of bytes it takes; None for bytes that are no UTF-8. */
  function DecodePoint(b: Bytes): (r: Option<(nat, nat)>)
    ensures r.Some? ==> 0 < r.value.1 <= |b|
  {
    if b == [] then None
    else if b[0] < 0x80 then Some((b[0], 1))
    else if 0xC0 <= b[0] < 0xE0 && |b| >= 2 && IsTail(b[1]) then Some((Shift(b[0] - 0xC0, b[1]), 2))
    else if 0xE0 <= b[0] < 0xF0 && |b| >= 3 && IsTail(b[1]) && IsTail(b[2]) then
      Some((Shift(Shift(b[0] - 0xE0, b[1]), b[2]), 3))
    else if 0xF0 <= b[0] < 0xF8 && |b| >= 4 && IsTail(b[1]) && IsTail(b[2]) && IsTail(b[3]) then
      Some((Shift(Shift(Shift(b[0] - 0xF0, b[1]), b[2]), b[3]), 4))
    else None
  }

  function DecodeUtf8(b: Bytes): Option<Text>
    decreases |b|
  {
    if b == [] then Some([])
    else
      match DecodePoint(b)
      case None => None
      case Some((c, n)) =>
        match DecodeUtf8(b[n..])
        case None => None
        case Some(rest) => Some([c] + rest)
  }

  /** The characters that `quote` always leaves alone: letters, digits and "_.-~". */
  predicate IsUnreserved(b: nat) {
    0x41 <= b <= 0x5A || 0x61 <= b <= 0x7A || 0x30 <= b <= 0x39 || b in {0x5F, 0x2E, 0x2D, 0x7E}
  }

  const PERCENT := 0x25

  function HexDigit(n: nat): nat
    requires n < 16
  {
    if n < 10 then 0x30 + n else 0x41 + n - 10
  }

  function HexValue(c: nat): Option<nat> {
    if 0x30 <= c <= 0x39 then Some(c - 0x30)
    else if 0x41 <= c <= 0x46 then Some(c - 0x41 + 10)
    else if 0x61 <= c <= 0x66 then Some(c - 0x61 + 10)
    else None
  }

  function QuoteByte(b: nat): Text
    requires b < 256
  {
    if IsUnreserved(b) then [b] else [PERCENT, HexDigit(b / 16), HexDigit(b % 16)]
  }

  function QuoteBytes(b: Bytes): Text
    requires forall i :: 0 <= i < |b| ==> b[i] < 256
  {
    if b == [] then [] else QuoteByte(b[0]) + QuoteBytes(b[1..])
  }

  function PercentDecode(s: Text): Option<Bytes>
    decreases |s|
  {
    if s == [] then Some([])
    else if s[0] != PERCENT then
      (match PercentDecode(s[1..])
       case None => None
       case Some(rest) => if s[0] < 0x80 then Some([s[0]] + rest) else None)
    else if |s| < 3 || HexValue(s[1]).None? || HexValue(s[2]).None? then None
    else
      match PercentDecode(s[3..])
      case None => None
      case Some(rest) => Some([HexValue(s[1]).value * 16 + HexValue(s[2]).value] + rest)
  }

  // -- round trips ------------------------------------------------------------------------------------

  lemma {:induction false} EncodedIsBytes(s: Text)
    requires forall i :: 0 <= i < |s| ==> IsScalar(s[i])
    ensures forall i :: 0 <= i < |EncodeUtf8(s)| ==> EncodeUtf8(s)[i] < 256
  {
    if s != [] {
      EncodedIsBytes(s[1..]);
    }
  }

  lemma PointRoundTrip(c: nat, rest: Bytes)
    requires IsScalar(c)
    ensures DecodePoint(EncodePoint(c) + rest) == Some((c, |EncodePoint(c)|))
  {
    var b := EncodePoint(c) + rest;
    var d := c / 64;
    var e := d / 64;
    if c < 0x80 {
      assert b[0] == c;
    } else if c < 0x800 {
      assert b[0] == 0xC0 + d && b[1] == 0x80 + c % 64;
    } else if c < 0x10000 {
      assert b[0] == 0xE0 + e && b[1] == 0x80 + d % 64 && b[2] == 0x80 + c % 64;
    } else {
      assert b[0] == 0xF0 + e / 64 && b[1] == 0x80 + e % 64 && b[2] == 0x80 + d % 64 && b[3] == 0x80 + c % 64;
    }
  }

  lemma {:induction false} Utf8RoundTrip(s: Text)
    requires forall i :: 0 <= i < |s| ==> IsScalar(s[i])
    ensures DecodeUtf8(EncodeUtf8(s)) == Some(s)
  {
    if s != [] {
      var rest := EncodeUtf8(s[1..]);
      PointRoundTrip(s[0], rest);
      Utf8RoundTrip(s[1..]);
      assert (EncodePoint(s[0]) + rest)[|EncodePoint(s[0])|..] == rest;
      assert s == [s[0]] + s[1..];
    }
  }

  lemma {:induction false} PercentRoundTrip(b: Bytes)
    requires forall i :: 0 <= i < |b| ==> b[i] < 256
    ensures PercentDecode(QuoteBytes(b)) == Some(b)
  {
    if b != [] {
      var rest := QuoteBytes(b[1..]);
      PercentRoundTrip(b[1..]);
      var text := QuoteByte(b[0]) + rest;
      assert b == [b[0]] + b[1..];
      if IsUnreserved(b[0]) {
        assert text[1..] == rest;
      } else {
        assert text[3..] == rest;
      }
    }
  }

  /** Quoted text is plain: unreserved characters and percent signs. */
  lemma {:induction false} QuotedIsPlain(b: Bytes)
    requires forall i :: 0 <= i < |b| ==> b[i] < 256
    ensures forall i :: 0 <= i < |QuoteBytes(b)| ==> IsUnreserved(QuoteBytes(b)[i]) || QuoteBytes(b)[i] == PERCENT
  {
    if b != [] {
      QuotedIsPlain(b[1..]);
    }
  }

  /** `quote(name, safe='')`. */
  function Quote(s: Text): Text
    requires forall i :: 0 <= i < |s| ==> IsScalar(s[i])
  {
    EncodedIsBytes(s);
    QuoteBytes(EncodeUtf8(s))
  }

  function Unquote(s: Text): Option<Text> {
    match PercentDecode(s)
    case None => None
    case Some(b) => DecodeUtf8(b)
  }

  lemma QuoteRoundTrip(s: Text)
    requires forall i :: 0 <= i < |s| ==> IsScalar(s[i])
    ensures Unquote(Quote(s)) == Some(s)
    ensures forall i :: 0 <= i < |Quote(s)| ==> IsUnreserved(Quote(s)[i]) || Quote(s)[i] == PERCENT
  {
    EncodedIsBytes(s);
    PercentRoundTrip(EncodeUtf8(s));
    Utf8RoundTrip(s);
    QuotedIsPlain(EncodeUtf8(s));
  }
}
