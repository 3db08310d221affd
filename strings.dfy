/** An optional value: an absent request field, a missing row, a null column. */
module Options {
  datatype Option<+T> = None | Some(value: T) {
    function GetOr(default: T): T {
      match this
      case Some(v) => v
      case None => default
    }
  }
}

/**
 * Character classes and string helpers shared by the rest of the model.
 * Strings are sequences of Unicode scalar values (`char`).
 */
module Strings {

  predicate IsAsciiUpper(c: char) { 'A' <= c <= 'Z' }

  predicate IsAsciiLower(c: char) { 'a' <= c <= 'z' }

  /** `\d` in a regular expression without a Unicode flag: the ten ASCII digits. */
  predicate IsDigit(c: char) { '0' <= c <= '9' }

  /** The class `[a-zA-Z0-9]`. */
  predicate IsAsciiAlnum(c: char) { IsAsciiUpper(c) || IsAsciiLower(c) || IsDigit(c) }

  /** ASCII lower-casing, as PHP's `strtolower` does since PHP 8.2. */
  function AsciiLower(c: char): (d: char)
    ensures IsAsciiUpper(c) ==> IsAsciiLower(d)
    ensures !IsAsciiUpper(c) ==> d == c
    ensures IsAsciiAlnum(d) <==> IsAsciiAlnum(c)
    ensures IsAsciiUpper(c) ==> AsciiUpper(d) == c
  {
    if IsAsciiUpper(c) then (c as int + 32) as char else c
  }

  /** ASCII upper-casing, as PHP's `strtoupper` does since PHP 8.2. */
  function AsciiUpper(c: char): (d: char)
    ensures IsAsciiLower(c) ==> IsAsciiUpper(d)
    ensures !IsAsciiLower(c) ==> d == c
    ensures IsAsciiLower(c) ==> d as int == c as int - 32
  {
    if IsAsciiLower(c) then (c as int - 32) as char else c
  }

  function LowerAll(s: string): (r: string)
    ensures |r| == |s|
    ensures forall i :: 0 <= i < |s| ==> r[i] == AsciiLower(s[i])
  {
    seq(|s|, i requires 0 <= i < |s| => AsciiLower(s[i]))
  }

  function UpperAll(s: string): (r: string)
    ensures |r| == |s|
    ensures forall i :: 0 <= i < |s| ==> r[i] == AsciiUpper(s[i])
  {
    seq(|s|, i requires 0 <= i < |s| => AsciiUpper(s[i]))
  }

  /** The characters PHP's `trim` removes: " \t\n\r\0\x0B". */
  predicate IsPhpTrimmed(c: char) {
    c == ' ' || c == '\t' || c == '\n' || c == '\r' || c == '\0' || c == '\U{000B}'
  }

  /**
   * The characters JavaScript's `String.prototype.trim` removes: the
   * ECMAScript WhiteSpace and LineTerminator code points.
   */
  predicate IsJsWhitespace(c: char) {
    c == '\t' || c == '\n' || c == '\U{000B}' || c == '\U{000C}' || c == '\r' || c == ' '
    || c == '\U{00A0}' || c == '\U{1680}' || ('\U{2000}' <= c <= '\U{200A}')
    || c == '\U{2028}' || c == '\U{2029}' || c == '\U{202F}' || c == '\U{205F}'
    || c == '\U{3000}' || c == '\U{FEFF}'
  }

  /** A byte of a PHP string. */
  newtype byte = b: int | 0 <= b < 0x100

  predicate IsAscii(c: char) { c as int < 0x80 }

  predicate AsciiString(s: string) { forall i :: 0 <= i < |s| ==> IsAscii(s[i]) }

  /**
   * The UTF-8 encoding of one character: the bytes a PHP function without
   * the `u` modifier sees of it. An ASCII character is one byte; any other
   * character is a lead byte of at least 0xC2 followed by one to three
   * continuation bytes in 0x80..0xBF.
   */
  function Utf8(c: char): (bs: seq<byte>)
    ensures 1 <= |bs| <= 4
    ensures IsAscii(c) <==> |bs| == 1
    ensures IsAscii(c) ==> bs[0] as int == c as int
    ensures !IsAscii(c) ==> 0xC2 <= bs[0] && forall i :: 1 <= i < |bs| ==> 0x80 <= bs[i] < 0xC0
  {
    var n := c as int;
    if n < 0x80 then [n as byte]
    else if n < 0x800 then [(0xC0 + n / 0x40) as byte, (0x80 + n % 0x40) as byte]
    else if n < 0x1_0000 then
      [(0xE0 + n / 0x1000) as byte, (0x80 + n / 0x40 % 0x40) as byte, (0x80 + n % 0x40) as byte]
    else
      [(0xF0 + n / 0x4_0000) as byte, (0x80 + n / 0x1000 % 0x40) as byte,
       (0x80 + n / 0x40 % 0x40) as byte, (0x80 + n % 0x40) as byte]
  }

  /** The code point a well-formed UTF-8 sequence of one to four bytes stands for. */
  function CodePoint(bs: seq<byte>): int
    requires 1 <= |bs| <= 4
  {
    if |bs| == 1 then bs[0] as int
    else if |bs| == 2 then (bs[0] as int - 0xC0) * 0x40 + (bs[1] as int - 0x80)
    else if |bs| == 3 then
      (bs[0] as int - 0xE0) * 0x1000 + (bs[1] as int - 0x80) * 0x40 + (bs[2] as int - 0x80)
    else
      (bs[0] as int - 0xF0) * 0x4_0000 + (bs[1] as int - 0x80) * 0x1000
      + (bs[2] as int - 0x80) * 0x40 + (bs[3] as int - 0x80)
  }

  /** Decoding the encoding of a character gives the character back. */
  lemma Utf8RoundTrip(c: char)
    ensures CodePoint(Utf8(c)) == c as int
  {
    var n := c as int;
    if n < 0x80 {
    } else if n < 0x800 {
      DivMod(n, 0x40);
    } else if n < 0x1_0000 {
      DivMod(n, 0x40);
      DivMod(n / 0x40, 0x40);
      assert n / 0x40 / 0x40 == n / 0x1000;
    } else {
      DivMod(n, 0x40);
      DivMod(n / 0x40, 0x40);
      DivMod(n / 0x40 / 0x40, 0x40);
      assert n / 0x40 / 0x40 == n / 0x1000;
      assert n / 0x1000 / 0x40 == n / 0x4_0000;
    }
  }

  lemma DivMod(n: nat, d: nat)
    requires d > 0
    ensures n == n / d * d + n % d && 0 <= n % d < d
  {
  }

  /** The UTF-8 encoding of a string, character after character. */
  function Utf8String(s: string): (bs: seq<byte>)
    ensures |bs| >= |s|
    ensures |bs| == |s| <==> AsciiString(s)
  {
    if s == [] then [] else Utf8String(s[..|s| - 1]) + Utf8(s[|s| - 1])
  }

  /** Encoding distributes over concatenation. */
  lemma {:induction false} Utf8Concat(s: string, t: string)
    ensures Utf8String(s + t) == Utf8String(s) + Utf8String(t)
  {
    if t == [] {
      assert s + t == s;
    } else {
      assert (s + t)[..|s + t| - 1] == s + t[..|t| - 1];
      Utf8Concat(s, t[..|t| - 1]);
    }
  }

  /** An ASCII string is encoded byte for byte. */
  lemma {:induction false} Utf8OfAscii(s: string)
    requires AsciiString(s)
    ensures |Utf8String(s)| == |s|
    ensures forall i :: 0 <= i < |s| ==> Utf8String(s)[i] as int == s[i] as int
  {
    if s != [] {
      Utf8OfAscii(s[..|s| - 1]);
    }
  }

  /** The encoding of a three-character string. */
  lemma Utf8Three(x: char, y: char, z: char)
    ensures Utf8String([x, y, z]) == Utf8(x) + Utf8(y) + Utf8(z)
  {
    assert [x, y, z][..2] == [x, y];
    assert [x, y][..1] == [x];
    assert [x][..0] == [];
    assert Utf8String([x]) == Utf8(x);
    assert Utf8String([x, y]) == Utf8(x) + Utf8(y);
  }

  /** Every byte of a character's encoding occurs in the encoding of a string holding it. */
  lemma {:induction false} Utf8Contains(s: string, i: nat, b: byte)
    requires i < |s| && b in Utf8(s[i])
    ensures b in Utf8String(s)
  {
    if i < |s| - 1 {
      Utf8Contains(s[..|s| - 1], i, b);
    }
  }

  /** `trim($s) === ''` in PHP. */
  predicate PhpBlank(s: string) { forall i :: 0 <= i < |s| ==> IsPhpTrimmed(s[i]) }

  /** `s.trim() === ''` in JavaScript. */
  predicate JsBlank(s: string) { forall i :: 0 <= i < |s| ==> IsJsWhitespace(s[i]) }
}
