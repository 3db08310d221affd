/**
 * The RFC (Mexican tax identifier) format check
 * `^[L]{3,4}\d{6}[A-Z0-9]{3}$`, as the browser reads it and as PHP reads it,
 * and the server's `between:12,13` length rule.
 *
 * The browser's `RegExp` has no `u` flag and works on UTF-16 code units; the
 * characters the pattern names are all single code units, so it is read here
 * on characters. PHP's `preg_match` has no `u` modifier either and works on
 * the UTF-8 bytes of the pattern and of the subject: a two-byte letter such
 * as 'Ñ' fills two of the `{3,4}` places, and the class `[A-ZÑ&]` is the set
 * of bytes A..Z, 0xC3, 0x91 and '&'. Laravel's `between` counts characters.
 */
module Rfc {
  import opened Strings

  /** The class `[A-ZÑ&]` of the browser's pattern, on characters. */
  predicate IsLetter(c: char) { IsAsciiUpper(c) || c == 'Ñ' || c == '&' }

  /** The class `[A-Z0-9]` of the last three characters. */
  predicate IsTailChar(c: char) { IsAsciiUpper(c) || IsDigit(c) }

  /** The pattern with exactly `k` leading letters: k letters, six digits, three tail characters. */
  predicate MatchesWithPrefix(s: string, k: nat) {
    && |s| == k + 9
    && (forall i :: 0 <= i < k ==> IsLetter(s[i]))
    && (forall i :: k <= i < k + 6 ==> IsDigit(s[i]))
    && (forall i :: k + 6 <= i < |s| ==> IsTailChar(s[i]))
  }

  /**
   * The anchored pattern as JavaScript's `RegExp.test` reads it: `{3,4}`
   * admits a prefix of three or of four letters, and `$` is the end of the
   * string. The nine characters after the prefix are fixed, so the length
   * decides which of the two prefixes can match.
   */
  function MatchesPattern(s: string): (m: bool)
    ensures m ==> 12 <= |s| <= 13 && IsLetter(s[0]) && IsLetter(s[1]) && IsLetter(s[2])
    ensures m ==> 12 <= |s| && forall i :: |s| - 9 <= i < |s| - 3 ==> IsDigit(s[i])
  {
    (|s| == 12 || |s| == 13) && MatchesWithPrefix(s, |s| - 9)
  }

  /**
   * The two byte-level letter classes of the server. `Registration` is the
   * class `[A-ZÑ&]` of the registration and reset rules. `CustomerUpdate` is
   * the customer update rule's class, whose source text reads `[A-ZÃ‘&]`:
   * the Ñ was saved in a mis-encoded form, so the class holds the bytes of
   * 'Ã' (0xC3 0x83) and of '‘' (0xE2 0x80 0x98), and not 0x91.
   */
  datatype Alphabet = Registration | CustomerUpdate

  predicate IsUpperByte(b: byte) { 0x41 <= b <= 0x5A }

  predicate IsDigitByte(b: byte) { 0x30 <= b <= 0x39 }

  predicate IsTailByte(b: byte) { IsUpperByte(b) || IsDigitByte(b) }

  predicate IsLetterByte(a: Alphabet, b: byte) {
    match a
    case Registration => IsUpperByte(b) || b == 0xC3 || b == 0x91 || b == 0x26
    case CustomerUpdate =>
      IsUpperByte(b) || b == 0xC3 || b == 0x83 || b == 0xE2 || b == 0x80 || b == 0x98 || b == 0x26
  }

  /** A byte some class of the pattern admits. */
  predicate IsPatternByte(a: Alphabet, b: byte) { IsLetterByte(a, b) || IsTailByte(b) }

  /** The pattern on bytes with exactly `k` leading letter bytes. */
  predicate BytesMatchWithPrefix(a: Alphabet, bs: seq<byte>, k: nat) {
    && |bs| == k + 9
    && (forall i :: 0 <= i < k ==> IsLetterByte(a, bs[i]))
    && (forall i :: k <= i < k + 6 ==> IsDigitByte(bs[i]))
    && (forall i :: k + 6 <= i < |bs| ==> IsTailByte(bs[i]))
  }

  /** `{3,4}` on bytes: as in the browser, the length decides the prefix. */
  predicate BytesMatch(a: Alphabet, bs: seq<byte>) {
    12 <= |bs| <= 13 && BytesMatchWithPrefix(a, bs, |bs| - 9)
  }

  /**
   * `preg_match` of the pattern on a byte string: without the `D` modifier,
   * `$` also matches just before a final line feed.
   */
  predicate ServerMatches(a: Alphabet, bs: seq<byte>) {
    BytesMatch(a, bs) || (|bs| > 0 && bs[|bs| - 1] == 0x0A && BytesMatch(a, bs[..|bs| - 1]))
  }

  /** `preg_match` of the pattern on the UTF-8 bytes of `s`. */
  function PcreMatches(a: Alphabet, s: string): (m: bool)
    ensures m ==> |s| <= |Utf8String(s)| <= 14
  {
    ServerMatches(a, Utf8String(s))
  }

  /** The server's `regex` rule together with its `between:12,13` rule, counted in characters. */
  function RfcRule(a: Alphabet, s: string): (r: bool)
    ensures r ==> 12 <= |s| <= 13 && 12 <= |Utf8String(s)| <= 14
  {
    PcreMatches(a, s) && 12 <= |s| <= 13
  }

  /** Every match has 12 or 13 characters in the browser, and 12 to 14 bytes on the server. */
  lemma MatchLength(a: Alphabet, s: string, bs: seq<byte>)
    ensures MatchesPattern(s) ==> |s| == 12 || |s| == 13
    ensures BytesMatch(a, bs) ==> |bs| == 12 || |bs| == 13
    ensures ServerMatches(a, bs) ==> 12 <= |bs| <= 14
  {
  }

  /** A byte-level match followed by a line feed still matches, and the pattern alone no longer does. */
  lemma LineFeedMatch(a: Alphabet, bs: seq<byte>)
    requires BytesMatch(a, bs)
    ensures ServerMatches(a, bs + [0x0A]) && !BytesMatch(a, bs + [0x0A])
  {
    assert (bs + [0x0A])[..|bs|] == bs;
    assert !IsTailByte((bs + [0x0A])[|bs|]);
  }

  /** Letter bytes, then six digit bytes and three tail bytes, match with that prefix. */
  lemma ConcatMatch(a: Alphabet, p: seq<byte>, r: seq<byte>)
    requires forall j :: 0 <= j < |p| ==> IsLetterByte(a, p[j])
    requires 3 <= |p| <= 4
    requires |r| == 9 && (forall i :: 0 <= i < 6 ==> IsDigitByte(r[i])) && (forall i :: 6 <= i < 9 ==> IsTailByte(r[i]))
    ensures BytesMatch(a, p + r)
  {
    assert BytesMatchWithPrefix(a, p + r, |p|);
  }

  /** On ASCII characters each byte class is the matching character class. */
  lemma AsciiByteClasses(a: Alphabet, c: char, b: byte)
    requires IsAscii(c) && b as int == c as int
    ensures IsLetterByte(a, b) <==> IsLetter(c)
    ensures IsDigitByte(b) <==> IsDigit(c)
    ensures IsTailByte(b) <==> IsTailChar(c)
  {
  }

  lemma AsciiPrefixAgrees(a: Alphabet, s: string, bs: seq<byte>, k: nat)
    requires |bs| == |s| && forall i :: 0 <= i < |s| ==> IsAscii(s[i]) && bs[i] as int == s[i] as int
    ensures BytesMatchWithPrefix(a, bs, k) <==> MatchesWithPrefix(s, k)
  {
    forall i | 0 <= i < |s|
      ensures (IsLetterByte(a, bs[i]) <==> IsLetter(s[i])) && (IsDigitByte(bs[i]) <==> IsDigit(s[i]))
        && (IsTailByte(bs[i]) <==> IsTailChar(s[i]))
    {
      AsciiByteClasses(a, s[i], bs[i]);
    }
  }

  /** On ASCII text the byte-level pattern and the character-level pattern agree, in either alphabet. */
  lemma AsciiPatternAgrees(a: Alphabet, s: string)
    requires AsciiString(s)
    ensures BytesMatch(a, Utf8String(s)) <==> MatchesPattern(s)
  {
    Utf8OfAscii(s);
    if 12 <= |s| <= 13 {
      AsciiPrefixAgrees(a, s, Utf8String(s), |s| - 9);
    }
  }

  /** The server's reading of ASCII text, on characters. */
  lemma AsciiServerMatches(a: Alphabet, s: string, bs: seq<byte>)
    requires |bs| == |s| && forall i :: 0 <= i < |s| ==> IsAscii(s[i]) && bs[i] as int == s[i] as int
    ensures ServerMatches(a, bs) <==>
      MatchesPattern(s) || (|s| > 0 && s[|s| - 1] == '\n' && MatchesPattern(s[..|s| - 1]))
  {
    if 12 <= |s| <= 13 {
      AsciiPrefixAgrees(a, s, bs, |s| - 9);
    }
    if 13 <= |s| <= 14 {
      AsciiPrefixAgrees(a, s[..|s| - 1], bs[..|s| - 1], |s| - 10);
    }
  }

  /**
   * On ASCII text the server rule is the anchored pattern, plus one extra
   * shape: a three-letter RFC followed by a line feed. The length rule is
   * what rejects a four-letter RFC followed by a line feed.
   */
  lemma ServerRuleShape(a: Alphabet, s: string)
    requires AsciiString(s)
    ensures RfcRule(a, s) <==>
      MatchesPattern(s) || (|s| == 13 && s[12] == '\n' && MatchesWithPrefix(s[..12], 3))
  {
    Utf8OfAscii(s);
    AsciiServerMatches(a, s, Utf8String(s));
  }

  /**
   * An RFC the server matches, followed by a line feed, still matches on the
   * server but not in the browser; the length rule, which counts the line
   * feed, lets it through exactly when the RFC has 11 or 12 characters (on
   * ASCII text, where a match has 12 or 13, exactly when it has 12).
   */
  lemma TrailingLineFeed(a: Alphabet, s: string)
    requires BytesMatch(a, Utf8String(s))
    ensures PcreMatches(a, s + "\n") && !MatchesPattern(s + "\n")
    ensures RfcRule(a, s + "\n") <==> 11 <= |s| <= 12
  {
    LineFeedServer(a, s);
    LineFeedNotPattern(s);
    LineFeedLength(a, s);
  }

  lemma LineFeedLength(a: Alphabet, s: string)
    requires PcreMatches(a, s + "\n")
    ensures RfcRule(a, s + "\n") <==> 11 <= |s| <= 12
  {
    assert |s + "\n"| == |s| + 1;
  }

  lemma LineFeedServer(a: Alphabet, s: string)
    requires BytesMatch(a, Utf8String(s))
    ensures PcreMatches(a, s + "\n")
  {
    LineFeedBytes(s);
    LineFeedMatch(a, Utf8String(s));
  }

  /** The browser's pattern never matches a string ending in a line feed. */
  lemma LineFeedNotPattern(s: string)
    ensures !MatchesPattern(s + "\n")
  {
    assert (s + "\n")[|s|] == '\n' && !IsTailChar('\n');
  }

  /** The encoding of a string followed by a line feed. */
  lemma LineFeedBytes(s: string)
    ensures Utf8String(s + "\n") == Utf8String(s) + [0x0A]
  {
    Utf8Concat(s, "\n");
    assert Utf8String("\n") == Utf8('\n') + Utf8String([]);
  }

  /** A three-letter RFC followed by a line feed: the server accepts it, the browser does not. */
  lemma ThreeLetterLineFeedAccepted()
    ensures RfcRule(Registration, "ABC123456EF7\n") && !MatchesPattern("ABC123456EF7\n")
  {
    assert MatchesWithPrefix("ABC123456EF7", 3);
    AsciiPatternAgrees(Registration, "ABC123456EF7");
    TrailingLineFeed(Registration, "ABC123456EF7");
    assert "ABC123456EF7" + "\n" == "ABC123456EF7\n";
  }

  /** A four-letter RFC followed by a line feed: the pattern matches on the server, only the length rule rejects it. */
  lemma FourLetterLineFeedTooLong()
    ensures PcreMatches(Registration, "ABCD123456EF7\n") && !RfcRule(Registration, "ABCD123456EF7\n")
  {
    assert MatchesWithPrefix("ABCD123456EF7", 4);
    AsciiPatternAgrees(Registration, "ABCD123456EF7");
    TrailingLineFeed(Registration, "ABCD123456EF7");
    assert "ABCD123456EF7" + "\n" == "ABCD123456EF7\n";
  }

  /**
   * A character one of whose bytes no class of the pattern admits (and which
   * is not the line feed) makes the server's match fail, wherever it stands.
   */
  lemma ForeignByteRejected(a: Alphabet, s: string, i: nat, b: byte)
    requires i < |s| && b in Utf8(s[i])
    requires !IsPatternByte(a, b) && b != 0x0A
    ensures !PcreMatches(a, s)
  {
    Utf8Contains(s, i, b);
    var bs := Utf8String(s);
    var j :| 0 <= j < |bs| && bs[j] == b;
    if |bs| > 0 && bs[|bs| - 1] == 0x0A {
      assert j < |bs| - 1 && bs[..|bs| - 1][j] == b;
    }
  }

  /** An RFC the server accepts is not blank: its first byte is a letter byte, and no blank character encodes to one. */
  lemma RuleNotBlank(a: Alphabet, s: string)
    requires RfcRule(a, s)
    ensures !PhpBlank(s)
  {
    if PhpBlank(s) {
      assert AsciiString(s);
      ServerRuleShape(a, s);
    }
  }

  /** The pattern has no case-insensitive flag: a lower-case ASCII letter anywhere rejects the RFC on both sides. */
  lemma LowerCaseRejected(a: Alphabet, s: string, i: nat)
    requires i < |s| && IsAsciiLower(s[i])
    ensures !RfcRule(a, s) && !MatchesPattern(s)
  {
    assert Utf8(s[i])[0] in Utf8(s[i]);
    ForeignByteRejected(a, s, i, Utf8(s[i])[0]);
  }

  /** An RFC that holds 'Ñ' anywhere fails the customer update rule: its byte 0x91 is in no class. */
  lemma EnyeRejectedOnCustomerUpdate(s: string, i: nat)
    requires i < |s| && s[i] == 'Ñ'
    ensures !RfcRule(CustomerUpdate, s)
  {
    assert Utf8('Ñ') == [0xC3, 0x91];
    ForeignByteRejected(CustomerUpdate, s, i, 0x91);
  }

  /** Letters whose every byte is a letter byte encode to letter bytes. */
  lemma {:induction false} LetterBytes(a: Alphabet, p: string)
    requires forall i :: 0 <= i < |p| ==>
      forall j :: 0 <= j < |Utf8(p[i])| ==> IsLetterByte(a, Utf8(p[i])[j])
    ensures forall j :: 0 <= j < |Utf8String(p)| ==> IsLetterByte(a, Utf8String(p)[j])
  {
    if p != [] {
      var q := p[..|p| - 1];
      LetterBytes(a, q);
      var e := Utf8(p[|p| - 1]);
      assert forall j :: 0 <= j < |e| ==> IsLetterByte(a, e[j]);
      assert Utf8String(p) == Utf8String(q) + e;
    }
  }

  /**
   * A prefix that encodes to three or four letter bytes, followed by six
   * ASCII digits and three ASCII tail characters, matches on the server.
   */
  lemma PrefixedMatch(a: Alphabet, p: string, r: string)
    requires forall j :: 0 <= j < |Utf8String(p)| ==> IsLetterByte(a, Utf8String(p)[j])
    requires 3 <= |Utf8String(p)| <= 4
    requires |r| == 9 && (forall i :: 0 <= i < 6 ==> IsDigit(r[i])) && (forall i :: 6 <= i < 9 ==> IsTailChar(r[i]))
    ensures BytesMatch(a, Utf8String(p + r))
  {
    assert AsciiString(r);
    Utf8OfAscii(r);
    var rb := Utf8String(r);
    forall i | 0 <= i < 9
      ensures (i < 6 ==> IsDigitByte(rb[i])) && (6 <= i ==> IsTailByte(rb[i]))
    {
      AsciiByteClasses(a, r[i], rb[i]);
    }
    ConcatMatch(a, Utf8String(p), rb);
    Utf8Concat(p, r);
  }

  /**
   * "ÑAB010101AB1" (three letters, one of them 'Ñ', so four bytes) passes
   * the registration rule and fails the customer update rule.
   */
  lemma EnyeWitness()
    ensures RfcRule(Registration, "ÑAB010101AB1")
    ensures !RfcRule(CustomerUpdate, "ÑAB010101AB1")
  {
    var p, r := "ÑAB", "010101AB1";
    Utf8Three('Ñ', 'A', 'B');
    assert Utf8('Ñ') == [0xC3, 0x91];
    LetterBytes(Registration, p);
    PrefixedMatch(Registration, p, r);
    assert p + r == "ÑAB010101AB1";
    EnyeRejectedOnCustomerUpdate("ÑAB010101AB1", 0);
  }

  /** On ASCII text the two alphabets accept the same RFCs. */
  lemma AlphabetsAgreeOnAscii(s: string)
    requires AsciiString(s)
    ensures RfcRule(Registration, s) <==> RfcRule(CustomerUpdate, s)
  {
    ServerRuleShape(Registration, s);
    ServerRuleShape(CustomerUpdate, s);
  }

  /**
   * The mis-encoded class admits the two bytes of 'À', 'Ã' and 'Ø': an RFC
   * starting with one of them and two letters passes the customer update
   * rule, and fails the registration rule, whose class lacks their second byte.
   */
  lemma MisEncodedClassLetters(c: char)
    requires c == 'À' || c == 'Ã' || c == 'Ø'
    ensures RfcRule(CustomerUpdate, [c] + "BC010101AB1")
    ensures !RfcRule(Registration, [c] + "BC010101AB1")
  {
    MisEncodedAccepted(c);
    MisEncodedRejected(c);
  }

  lemma MisEncodedAccepted(c: char)
    requires c == 'À' || c == 'Ã' || c == 'Ø'
    ensures RfcRule(CustomerUpdate, [c] + "BC010101AB1")
  {
    var p, r := [c, 'B', 'C'], "010101AB1";
    assert Utf8(c) == [0xC3, (0x80 + c as int % 0x40) as byte];
    assert forall j :: 0 <= j < |Utf8(c)| ==> IsLetterByte(CustomerUpdate, Utf8(c)[j]);
    assert Utf8('B') == [0x42] && Utf8('C') == [0x43];
    Utf8Three(c, 'B', 'C');
    LetterBytes(CustomerUpdate, p);
    PrefixedMatch(CustomerUpdate, p, r);
    assert p + r == [c] + "BC010101AB1";
  }

  lemma MisEncodedRejected(c: char)
    requires c == 'À' || c == 'Ã' || c == 'Ø'
    ensures !RfcRule(Registration, [c] + "BC010101AB1")
  {
    assert Utf8(c)[1] in Utf8(c);
    ForeignByteRejected(Registration, [c] + "BC010101AB1", 0, Utf8(c)[1]);
  }

  /**
   * The rule with the `u` modifier, which the repository evidently intends:
   * `preg_match` then works on characters, as the browser does, while `$`
   * still matches before a final line feed.
   */
  predicate UnicodeRfcRule(s: string) {
    (MatchesPattern(s) || (|s| > 0 && s[|s| - 1] == '\n' && MatchesPattern(s[..|s| - 1])))
    && 12 <= |s| <= 13
  }

  /** On ASCII text the rule as written and the rule with `u` accept the same RFCs. */
  lemma UnicodeRuleAgreesOnAscii(s: string)
    requires AsciiString(s)
    ensures UnicodeRfcRule(s) <==> RfcRule(Registration, s)
  {
    Utf8OfAscii(s);
    AsciiServerMatches(Registration, s, Utf8String(s));
  }
}
