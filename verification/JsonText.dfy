/** JSON strings as pure ASCII text, and the decoder of section 7 of RFC 8259. */
module JsonText {
  import opened Identities
  import opened Hex

  /** A Unicode scalar value. */
  type Scalar = c: nat | c < 0x110000 && !(0xD800 <= c < 0xE000) witness 0

  type Text = seq<Scalar>

  /** write_hex_quad */
  function HexQuad(value: nat): string
    requires value < 0x10000
  {
    Quad(value / 4096, value / 256 % 16, value / 16 % 16, value % 16)
  }

  function Quad(a: nat, b: nat, c: nat, d: nat): string
    requires a < 16 && b < 16 && c < 16 && d < 16
  {
    ['\\', 'u', HexDigit(a), HexDigit(b), HexDigit(c), HexDigit(d)]
  }

  /** The surrogate halves of a character beyond the basic plane. */
  function High(c: Scalar): (unit: nat)
    requires c >= 0x10000
    ensures 0xD800 <= unit < 0xDC00
  {
    0xD800 + (c - 0x10000) / 1024
  }

  function Low(c: Scalar): (unit: nat)
    requires c >= 0x10000
    ensures 0xDC00 <= unit < 0xE000
  {
    0xDC00 + (c - 0x10000) % 1024
  }

  function EncodeChar(c: Scalar): string {
    if c == 0x22 then "\\\""
    else if c == 0x5C then "\\\\"
    else if c == 0x08 then "\\b"
    else if c == 0x0C then "\\f"
    else if c == 0x0A then "\\n"
    else if c == 0x0D then "\\r"
    else if c == 0x09 then "\\t"
    else if c < 0x20 then HexQuad(c)
    else if c <= 0x7F then [c as char]
    else if c <= 0xFFFF then HexQuad(c)
    else HexQuad(High(c)) + HexQuad(Low(c))
  }

  function EncodeBody(s: Text): string { if s == [] then "" else EncodeBody(s[..|s| - 1]) + EncodeChar(s[|s| - 1]) }

  function EncodeString(s: Text): string { "\"" + EncodeBody(s) + "\"" }

  // ----- the decoder

  /** One \uXXXX escape at the front. */
  function TakeQuad(text: string): (r: Option<nat>)
    ensures r.Some? ==> r.value < 0x10000
  {
    if |text| < 6 || text[0] != '\\' || text[1] != 'u' then None
    else
      match (HexValue(text[2]), HexValue(text[3]), HexValue(text[4]), HexValue(text[5]))
      case (Some(a), Some(b), Some(c), Some(d)) =>
        if a < 16 && b < 16 && c < 16 && d < 16 then Some(a * 4096 + b * 256 + c * 16 + d) else None
      case _ => None
  }

  function ShortEscape(c: char): Option<Scalar> {
    match c
    case '"' => Some(0x22)
    case '\\' => Some(0x5C)
    case '/' => Some(0x2F)
    case 'b' => Some(0x08)
    case 'f' => Some(0x0C)
    case 'n' => Some(0x0A)
    case 'r' => Some(0x0D)
    case 't' => Some(0x09)
    case _ => None
  }

  /** One character and the length of its text.  A high surrogate needs its low half right behind it. */
  function TakeChar(text: string): (r: Option<(Scalar, nat)>)
    ensures r.Some? ==> 0 < r.value.1 <= |text|
  {
    if text == "" || text[0] == '"' || text[0] as nat < 0x20 then None
    else if text[0] != '\\' then Some((text[0] as nat, 1))
    else if |text| >= 2 && ShortEscape(text[1]).Some? then Some((ShortEscape(text[1]).value, 2))
    else
      match TakeQuad(text)
      case None => None
      case Some(unit) =>
        if !(0xD800 <= unit < 0xE000) then Some((unit, 6))
        else if unit >= 0xDC00 then None
        else
          match TakeQuad(text[6..])
          case None => None
          case Some(low) =>
            if 0xDC00 <= low < 0xE000 then Some((0x10000 + (unit - 0xD800) * 1024 + (low - 0xDC00), 12)) else None
  }

  /** Characters up to the closing quote. */
  function TakeBody(text: string): (r: Option<(Text, string)>)
    ensures r.Some? ==> |r.value.1| < |text|
    decreases |text|
  {
    if text == "" then None
    else if text[0] == '"' then Some(([], text[1..]))
    else
      match TakeChar(text)
      case None => None
      case Some((c, n)) =>
        match TakeBody(text[n..])
        case None => None
        case Some((more, rest)) => Some(([c] + more, rest))
  }

  function TakeString(text: string): (r: Option<(Text, string)>)
    ensures r.Some? ==> |r.value.1| < |text|
  {
    if text == "" || text[0] != '"' then None else TakeBody(text[1..])
  }

  // ----- the round trip

  lemma QuadDigits(value: nat)
    requires value < 0x10000
    ensures value / 4096 < 16
    ensures (value / 4096) * 4096 + (value / 256 % 16) * 256 + (value / 16 % 16) * 16 + value % 16 == value
  {
    assert value / 256 == (value / 4096) * 16 + value / 256 % 16 by { assert value / 256 / 16 == value / 4096; }
    assert value / 16 == (value / 256) * 16 + value / 16 % 16 by { assert value / 16 / 16 == value / 256; }
  }

  lemma TakeDigits(rest: string, a: nat, b: nat, c: nat, d: nat, value: nat)
    requires a < 16 && b < 16 && c < 16 && d < 16 && value == a * 4096 + b * 256 + c * 16 + d
    ensures TakeQuad(Quad(a, b, c, d) + rest) == Some(value)
  {
    HexDigitValue(a);
    HexDigitValue(b);
    HexDigitValue(c);
    HexDigitValue(d);
  }

  lemma Split(front: string, rest: string)
    ensures (front + rest)[..|front|] == front && (front + rest)[|front|..] == rest
  {
  }

  lemma QuadRoundTrip(value: nat, rest: string)
    requires value < 0x10000
    ensures TakeQuad(HexQuad(value) + rest) == Some(value)
  {
    QuadDigits(value);
    TakeDigits(rest, value / 4096, value / 256 % 16, value / 16 % 16, value % 16, value);
  }

  lemma UnitChar(text: string, unit: nat)
    requires TakeQuad(text) == Some(unit) && !(0xD800 <= unit < 0xE000) && |text| >= 6
    ensures TakeChar(text) == Some((unit, 6))
  {
  }

  lemma PairChar(text: string, high: nat, low: nat)
    requires TakeQuad(text) == Some(high) && 0xD800 <= high < 0xDC00 && |text| >= 12
    requires TakeQuad(text[6..]) == Some(low) && 0xDC00 <= low < 0xE000
    ensures TakeChar(text) == Some((0x10000 + (high - 0xD800) * 1024 + (low - 0xDC00), 12))
  {
  }

  lemma PairText(high: nat, low: nat, rest: string, c: Scalar)
    requires 0xD800 <= high < 0xDC00 && 0xDC00 <= low < 0xE000 && 0x10000 + (high - 0xD800) * 1024 + (low - 0xDC00) == c
    ensures TakeChar(HexQuad(high) + HexQuad(low) + rest) == Some((c, 12))
  {
    var first, second := HexQuad(high), HexQuad(low) + rest;
    assert first + HexQuad(low) + rest == first + second;
    QuadRoundTrip(high, second);
    Split(first, second);
    QuadRoundTrip(low, rest);
    PairChar(first + second, high, low);
  }

  lemma HalvesRejoin(c: Scalar)
    requires c >= 0x10000
    ensures 0x10000 + (High(c) - 0xD800) * 1024 + (Low(c) - 0xDC00) == c
  {
  }

  lemma PairRoundTrip(c: Scalar, rest: string)
    requires c >= 0x10000
    ensures TakeChar(HexQuad(High(c)) + HexQuad(Low(c)) + rest) == Some((c, 12))
  {
    HalvesRejoin(c);
    PairText(High(c), Low(c), rest, c);
  }

  lemma CharRoundTrip(c: Scalar, rest: string)
    ensures TakeChar(EncodeChar(c) + rest) == Some((c, |EncodeChar(c)|))
    ensures EncodeChar(c)[0] != '"'
  {
    if c >= 0x10000 {
      PairRoundTrip(c, rest);
    } else if EncodeChar(c) == HexQuad(c) {
      QuadRoundTrip(c, rest);
      UnitChar(HexQuad(c) + rest, c);
    } else {
      PlainCharRoundTrip(c, rest);
    }
  }

  lemma PlainCharRoundTrip(c: Scalar, rest: string)
    requires c < 0x10000 && EncodeChar(c) != HexQuad(c)
    ensures TakeChar(EncodeChar(c) + rest) == Some((c, |EncodeChar(c)|))
  {
    var all := EncodeChar(c) + rest;
    assert all[0] == EncodeChar(c)[0];
    if |EncodeChar(c)| == 2 { assert all[1] == EncodeChar(c)[1]; }
  }

  lemma {:induction false} EncodeBodyFront(s: Text)
    requires s != []
    ensures EncodeBody(s) == EncodeChar(s[0]) + EncodeBody(s[1..])
  {
    var n := |s| - 1;
    if n > 0 {
      EncodeBodyFront(s[..n]);
      assert s[1..][..n - 1] == s[..n][1..];
    }
  }

  lemma {:induction false} BodyRoundTrip(s: Text, rest: string)
    ensures TakeBody(EncodeBody(s) + "\"" + rest) == Some((s, rest))
  {
    if s == [] {
      assert (EncodeBody(s) + "\"" + rest)[1..] == rest;
    } else {
      EncodeBodyFront(s);
      BodyRoundTrip(s[1..], rest);
      BodyStep(s[0], EncodeBody(s[1..]) + "\"" + rest, s[1..], rest);
      Rejoined(EncodeChar(s[0]), EncodeBody(s[1..]), "\"", rest);
      assert s == [s[0]] + s[1..];
    }
  }

  lemma BodyStep(c: Scalar, tail: string, more: Text, rest: string)
    requires TakeBody(tail) == Some((more, rest))
    ensures TakeBody(EncodeChar(c) + tail) == Some(([c] + more, rest))
  {
    CharRoundTrip(c, tail);
    Split(EncodeChar(c), tail);
    assert (EncodeChar(c) + tail)[0] == EncodeChar(c)[0];
  }

  lemma Rejoined(a: string, b: string, c: string, d: string)
    ensures a + b + c + d == a + (b + c + d)
  {
  }

  lemma Quoted(body: string, rest: string)
    ensures (var all := "\"" + body + "\"" + rest; all != "" && all[0] == '"' && all[1..] == body + "\"" + rest)
  {
  }

  /** Decoding gives back every string exactly, whatever follows it. */
  lemma StringRoundTrip(s: Text, rest: string)
    ensures TakeString(EncodeString(s) + rest) == Some((s, rest))
  {
    BodyRoundTrip(s, rest);
    Quoted(EncodeBody(s), rest);
  }

  // ----- the shortest escape

  predicate UpperHex(c: char) { 'A' <= c <= 'F' }

  predicate NoUpperHex(text: string) { forall i | 0 <= i < |text| :: !UpperHex(text[i]) }

  lemma DigitOf(c: char)
    requires HexValue(c).Some? && !UpperHex(c)
    ensures HexValue(c).value < 16 && HexDigit(HexValue(c).value) == c
  {
  }

  /** A quad without upper-case digits is the one the writer makes. */
  lemma QuadUnique(text: string)
    requires TakeQuad(text).Some? && NoUpperHex(text[..6])
    ensures text[..6] == HexQuad(TakeQuad(text).value)
  {
    QuadRead(text[2], text[3], text[4], text[5], TakeQuad(text).value) by {
      assert forall i | 2 <= i < 6 :: text[..6][i] == text[i];
    }
    assert text[..6] == ['\\', 'u', text[2], text[3], text[4], text[5]];
  }

  lemma QuadRead(a: char, b: char, c: char, d: char, value: nat)
    requires HexValue(a).Some? && HexValue(b).Some? && HexValue(c).Some? && HexValue(d).Some?
    requires !UpperHex(a) && !UpperHex(b) && !UpperHex(c) && !UpperHex(d)
    requires value == HexValue(a).value * 4096 + HexValue(b).value * 256 + HexValue(c).value * 16 + HexValue(d).value
    ensures value < 0x10000 && HexQuad(value) == ['\\', 'u', a, b, c, d]
  {
    DigitOf(a);
    DigitOf(b);
    DigitOf(c);
    DigitOf(d);
    QuadOfDigits(HexValue(a).value, HexValue(b).value, HexValue(c).value, HexValue(d).value, value);
  }

  lemma QuadOfDigits(a: nat, b: nat, c: nat, d: nat, value: nat)
    requires a < 16 && b < 16 && c < 16 && d < 16 && value == a * 4096 + b * 256 + c * 16 + d
    ensures value < 0x10000 && HexQuad(value) == Quad(a, b, c, d)
  {
    DigitsApart(a, b, c, d, value);
  }

  lemma DigitsApart(a: nat, b: nat, c: nat, d: nat, value: nat)
    requires a < 16 && b < 16 && c < 16 && d < 16 && value == a * 4096 + b * 256 + c * 16 + d
    ensures value / 4096 == a && value / 256 % 16 == b && value / 16 % 16 == c && value % 16 == d
  {
    LastDigit(a * 256 + b * 16 + c, d);
    LastDigit(a * 16 + b, c);
    LastDigit(a, b);
    Sixteenths(value);
  }

  lemma LastDigit(front: nat, d: nat)
    requires d < 16
    ensures (front * 16 + d) / 16 == front && (front * 16 + d) % 16 == d
  {
  }

  lemma Sixteenths(v: nat)
    ensures v / 256 == v / 16 / 16 && v / 4096 == v / 16 / 16 / 16
  {
  }

  lemma HalvesUnique(high: nat, low: nat, c: Scalar)
    requires 0xD800 <= high < 0xDC00 && 0xDC00 <= low < 0xE000 && c == 0x10000 + (high - 0xD800) * 1024 + (low - 0xDC00)
    ensures c >= 0x10000 && High(c) == high && Low(c) == low
  {
  }

  /** Of all printable texts that decode to a character its escape is the shortest, and among texts of that length the
      one without upper-case digits. */
  lemma ShortestEscape(text: string, c: Scalar)
    requires Printable(text) && TakeChar(text) == Some((c, |text|))
    ensures |EncodeChar(c)| <= |text|
    ensures |EncodeChar(c)| == |text| && NoUpperHex(text[1..]) ==> EncodeChar(c) == text
  {
    if |text| == 1 {
      assert text == [c as char];
    } else if |text| == 2 {
      assert text == [text[0], text[1]];
    } else if |text| == 6 {
      if NoUpperHex(text[1..]) {
        assert NoUpperHex(text[..6]) by { assert forall i | 1 <= i < 6 :: text[i] == text[1..][i - 1]; }
        QuadUnique(text);
        assert text[..6] == text;
      }
    } else {
      var high, low := TakeQuad(text).value, TakeQuad(text[6..]).value;
      HalvesUnique(high, low, c);
      if NoUpperHex(text[1..]) {
        assert NoUpperHex(text[..6]) && NoUpperHex(text[6..][..6]) by {
          assert forall i | 1 <= i < 12 :: text[i] == text[1..][i - 1];
        }
        QuadUnique(text);
        QuadUnique(text[6..]);
        assert text == text[..6] + text[6..][..6];
      }
    }
  }

  // ----- pure ASCII without control characters

  predicate Printable(text: string) { forall i | 0 <= i < |text| :: 0x20 <= text[i] as nat < 0x80 }

  lemma CharPrintable(c: Scalar)
    ensures Printable(EncodeChar(c))
  {
    if c >= 0x10000 {
      QuadPrintable(High(c));
      QuadPrintable(Low(c));
    } else {
      QuadPrintable(c);
    }
  }

  lemma QuadPrintable(value: nat)
    requires value < 0x10000
    ensures Printable(HexQuad(value))
  {
    HexDigitValue(value / 4096);
    HexDigitValue(value / 256 % 16);
    HexDigitValue(value / 16 % 16);
    HexDigitValue(value % 16);
  }

  lemma {:induction false} StringPrintable(s: Text)
    ensures Printable(EncodeBody(s)) && Printable(EncodeString(s))
  {
    if s != [] {
      StringPrintable(s[..|s| - 1]);
      CharPrintable(s[|s| - 1]);
    }
  }
}
