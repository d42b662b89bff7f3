/** Python's `str.encode('utf-16le')` and `str.encode()` (UTF-8), on Unicode scalar
    values, with a UTF-16LE decoder that shows the first encoding loses nothing. */
module Encoding {
  import opened Common

  /** Code units (little-endian byte pairs) of one character in UTF-16LE. */
  function CharUtf16Le(c: char): (r: seq<byte>)
    ensures |r| == if c as int < 0x1_0000 then 2 else 4
  {
    var v := c as int;
    if v < 0x1_0000 then [v % 256, v / 256]
    else
      assert v < 0x11_0000;
      var w := v - 0x1_0000;
      var hi := 0xD800 + w / 0x400;
      var lo := 0xDC00 + w % 0x400;
      [hi % 256, hi / 256, lo % 256, lo / 256]
  }

  function Utf16Le(s: string): (r: seq<byte>)
    ensures |r| % 2 == 0
    ensures |r| >= 2 * |s|
  {
    if s == [] then [] else CharUtf16Le(s[0]) + Utf16Le(s[1..])
  }

  /** Reads UTF-16LE back; `None` for an odd length or a badly paired surrogate. */
  function DecodeUtf16Le(b: seq<byte>): Option<string>
    decreases |b|
  {
    if b == [] then Some([])
    else if |b| < 2 then None
    else
      var u := b[0] as int + 256 * b[1] as int;
      if 0xD800 <= u < 0xDC00 then
        if |b| < 4 then None
        else
          var u2 := b[2] as int + 256 * b[3] as int;
          if 0xDC00 <= u2 < 0xE000 then
            var cp := 0x1_0000 + (u - 0xD800) * 0x400 + (u2 - 0xDC00);
            match DecodeUtf16Le(b[4..])
            case Some(rest) => Some([cp as char] + rest)
            case None => None
          else None
      else if 0xDC00 <= u < 0xE000 then None
      else
        match DecodeUtf16Le(b[2..])
        case Some(rest) => Some([u as char] + rest)
        case None => None
  }

  /** Decoding the code units of one character, followed by anything, gives that
      character in front of whatever the rest decodes to. */
  lemma DecodeCharUtf16Le(c: char, rest: seq<byte>)
    ensures DecodeUtf16Le(CharUtf16Le(c) + rest) ==
      match DecodeUtf16Le(rest)
      case Some(t) => Some([c] + t)
      case None => None
  {
    var b := CharUtf16Le(c) + rest;
    var v := c as int;
    if v < 0x1_0000 {
      assert b[2..] == rest;
      assert b[0] as int + 256 * b[1] as int == v;
    } else {
      var w := v - 0x1_0000;
      assert b[4..] == rest;
      assert b[0] as int + 256 * b[1] as int == 0xD800 + w / 0x400;
      assert b[2] as int + 256 * b[3] as int == 0xDC00 + w % 0x400;
      assert 0x1_0000 + (w / 0x400) * 0x400 + w % 0x400 == v;
    }
  }

  /** Text encoded as UTF-16LE decodes back to the same text. */
  lemma {:induction false} Utf16LeRoundTrip(s: string)
    ensures DecodeUtf16Le(Utf16Le(s)) == Some(s)
  {
    if s != [] {
      Utf16LeRoundTrip(s[1..]);
      DecodeCharUtf16Le(s[0], Utf16Le(s[1..]));
      assert [s[0]] + s[1..] == s;
    }
  }

  /** Bytes of one character in UTF-8. */
  function CharUtf8(c: char): (r: seq<byte>)
    ensures 1 <= |r| <= 4
    ensures (|r| == 1) <==> (c as int < 0x80)
  {
    var v := c as int;
    if v < 0x80 then [v]
    else if v < 0x800 then [0xC0 + v / 0x40, 0x80 + v % 0x40]
    else if v < 0x1_0000 then [0xE0 + v / 0x1000, 0x80 + (v / 0x40) % 0x40, 0x80 + v % 0x40]
    else assert v < 0x11_0000; [0xF0 + v / 0x4_0000, 0x80 + (v / 0x1000) % 0x40, 0x80 + (v / 0x40) % 0x40, 0x80 + v % 0x40]
  }

  /** `str.encode()`: UTF-8. */
  function Utf8(s: string): (r: seq<byte>)
    ensures |r| >= |s|
  {
    if s == [] then [] else CharUtf8(s[0]) + Utf8(s[1..])
  }

  predicate IsAscii(s: string) {
    forall i :: 0 <= i < |s| ==> s[i] as int < 0x80
  }

  /** ASCII text is encoded as one byte per character, its code. */
  lemma {:induction false} Utf8Ascii(s: string)
    requires IsAscii(s)
    ensures |Utf8(s)| == |s|
    ensures forall i :: 0 <= i < |s| ==> Utf8(s)[i] == s[i] as int
  {
    if s != [] {
      Utf8Ascii(s[1..]);
    }
  }
}
