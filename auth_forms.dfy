/**
 * The client-side checks of the registration page (register.tsx) and of the
 * email-and-RFC reset page (reset-password-email-rfc.tsx). Both pages carry
 * identical copies of `validateField`, `validateRFC` and
 * `validatePasswordsMatch`; they are defined once here. Border colouring of
 * the inputs is not modelled: only the verdicts are.
 */
module AuthForms {
  import opened Options
  import opened Strings
  import opened Rfc
  import Requests

  /** `validateField`: the value is not empty after JavaScript's `trim`. */
  function ValidateField(value: string): (ok: bool)
    ensures ok ==> value != ""
    ensures value == " " || value == "\n" ==> !ok
  {
    !JsBlank(value)
  }

  /** `validateRFC`: the pattern (read the JavaScript way) and a length of 12 or 13. */
  function ValidateRfc(rfc: string): (ok: bool)
    ensures ok ==> ValidateField(rfc)
  {
    MatchesPattern(rfc) && (|rfc| == 12 || |rfc| == 13)
  }

  /** `validatePasswordsMatch`: the two strings are identical (two empty strings match). */
  function PasswordsMatch(password: string, confirmation: string): (ok: bool)
    ensures password == "" && confirmation == "" ==> ok
    ensures |password| != |confirmation| ==> !ok
  {
    password == confirmation
  }

  /**
   * On ASCII text the browser check accepts exactly what the server's rfc
   * rule accepts, apart from a trailing line feed.
   */
  lemma ClientRfcAgreesWithServer(rfc: string)
    ensures AsciiString(rfc) ==> (ValidateRfc(rfc) ==> Requests.RfcFieldRule(Registration, Some(rfc)))
    ensures AsciiString(rfc) && (|rfc| == 0 || rfc[|rfc| - 1] != '\n') ==>
      (ValidateRfc(rfc) <==> Requests.RfcFieldRule(Registration, Some(rfc)))
  {
    if AsciiString(rfc) {
      ServerRuleShape(Registration, rfc);
      if |rfc| > 0 {
        assert IsAsciiUpper(rfc[0]) || rfc[0] == '&' ==> !IsPhpTrimmed(rfc[0]);
      }
    }
  }

  /** The number of 'Ñ' in a string. */
  function EnyeCount(s: string): (n: nat)
    ensures n <= |s|
  {
    multiset(s)['Ñ']
  }

  /** A string of ASCII characters and 'Ñ' has one UTF-8 byte per character and one more per 'Ñ'. */
  lemma {:induction false} EnyeBytes(s: string)
    requires forall i :: 0 <= i < |s| ==> IsAscii(s[i]) || s[i] == 'Ñ'
    ensures |Utf8String(s)| == |s| + EnyeCount(s)
  {
    if s != [] {
      var q := s[..|s| - 1];
      EnyeBytes(q);
      assert s == q + [s[|s| - 1]];
      assert multiset(s) == multiset(q) + multiset{s[|s| - 1]};
      assert Utf8('Ñ') == [0xC3, 0x91];
    }
  }

  /** The letters of the browser's class encode to letters of the registration rule's byte class. */
  lemma LetterEncoding(c: char)
    requires IsLetter(c)
    ensures forall j :: 0 <= j < |Utf8(c)| ==> IsLetterByte(Registration, Utf8(c)[j])
  {
    if c == 'Ñ' {
      assert Utf8('Ñ') == [0xC3, 0x91];
    }
  }

  /**
   * What the server makes of an RFC the browser accepts: PHP counts 'Ñ' as
   * two letters, so the server accepts it exactly when its letters, with each
   * 'Ñ' counted twice, are at most four: no 'Ñ' at all, or a single 'Ñ' in a
   * three-letter prefix.
   */
  lemma ClientRfcOnServer(rfc: string)
    requires ValidateRfc(rfc)
    ensures Requests.RfcFieldRule(Registration, Some(rfc)) <==> |rfc| + EnyeCount(rfc) <= 13
  {
    EnyeBytes(rfc);
    assert !IsPhpTrimmed(rfc[0]);
    if |rfc| + EnyeCount(rfc) <= 13 {
      ShortEncodingAccepted(rfc);
    } else {
      LongEncodingRejected(rfc);
    }
  }

  /** A browser-valid RFC splits into its letters and nine ASCII characters. */
  lemma SplitValid(rfc: string, p: string, r: string)
    requires ValidateRfc(rfc) && p == rfc[..|rfc| - 9] && r == rfc[|rfc| - 9..]
    ensures rfc == p + r && |p| == |rfc| - 9 && |r| == 9
    ensures Utf8String(rfc) == Utf8String(p) + Utf8String(r)
    ensures forall j :: 0 <= j < |Utf8String(p)| ==> IsLetterByte(Registration, Utf8String(p)[j])
    ensures (forall i :: 0 <= i < 6 ==> IsDigit(r[i])) && (forall i :: 6 <= i < 9 ==> IsTailChar(r[i]))
    ensures |Utf8String(r)| == 9 && Utf8String(r)[8] as int == r[8] as int
  {
    SplitTail(rfc, r);
    SplitLetters(rfc, p);
    assert rfc == p + r;
    Utf8Concat(p, r);
  }

  lemma SplitTail(rfc: string, r: string)
    requires ValidateRfc(rfc) && r == rfc[|rfc| - 9..]
    ensures (forall i :: 0 <= i < 6 ==> IsDigit(r[i])) && (forall i :: 6 <= i < 9 ==> IsTailChar(r[i]))
    ensures |Utf8String(r)| == 9 && Utf8String(r)[8] as int == r[8] as int
  {
    var k := |rfc| - 9;
    assert MatchesWithPrefix(rfc, k);
    assert forall i :: 0 <= i < 9 ==> r[i] == rfc[k + i];
    assert AsciiString(r);
    Utf8OfAscii(r);
  }

  lemma SplitLetters(rfc: string, p: string)
    requires ValidateRfc(rfc) && p == rfc[..|rfc| - 9]
    ensures forall j :: 0 <= j < |Utf8String(p)| ==> IsLetterByte(Registration, Utf8String(p)[j])
  {
    assert MatchesWithPrefix(rfc, |rfc| - 9);
    forall i | 0 <= i < |p|
      ensures forall j :: 0 <= j < |Utf8(p[i])| ==> IsLetterByte(Registration, Utf8(p[i])[j])
    {
      LetterEncoding(p[i]);
    }
    LetterBytes(Registration, p);
  }

  lemma ShortEncodingAccepted(rfc: string)
    requires ValidateRfc(rfc) && |Utf8String(rfc)| <= 13
    ensures PcreMatches(Registration, rfc)
  {
    var p, r := rfc[..|rfc| - 9], rfc[|rfc| - 9..];
    SplitValid(rfc, p, r);
    PrefixedMatch(Registration, p, r);
  }

  lemma LongEncodingRejected(rfc: string)
    requires ValidateRfc(rfc) && |Utf8String(rfc)| > 13
    ensures !PcreMatches(Registration, rfc)
  {
    var p, r := rfc[..|rfc| - 9], rfc[|rfc| - 9..];
    SplitValid(rfc, p, r);
    var bs := Utf8String(rfc);
    assert bs[|bs| - 1] == Utf8String(r)[8];
    assert IsTailChar(r[8]);
    MatchLength(Registration, rfc, bs);
  }

  /** A browser-valid RFC of thirteen characters holding 'Ñ' is rejected by the server's rfc rule. */
  lemma FourLetterEnyeRejected(rfc: string, i: nat)
    requires ValidateRfc(rfc) && |rfc| == 13
    requires i < |rfc| && rfc[i] == 'Ñ'
    ensures !Requests.RfcFieldRule(Registration, Some(rfc))
  {
    assert rfc[i] in multiset(rfc);
    ClientRfcOnServer(rfc);
  }

  /**
   * An RFC with 'Ñ' in a four-letter prefix, as a surname such as Muñoz
   * gives: the browser accepts it and the server's rfc rule rejects it.
   */
  lemma EnyeSurnameRejected()
    ensures ValidateRfc("MUÑO800101AB1")
    ensures !Requests.RfcFieldRule(Registration, Some("MUÑO800101AB1"))
  {
    assert MatchesWithPrefix("MUÑO800101AB1", 4);
    FourLetterEnyeRejected("MUÑO800101AB1", 2);
  }

  /**
   * With the `u` modifier the server's rule would accept every RFC the
   * browser accepts, and, apart from a trailing line feed, only those.
   */
  lemma ClientAgreesWithUnicodeRule(rfc: string)
    ensures ValidateRfc(rfc) ==> UnicodeRfcRule(rfc) && !PhpBlank(rfc)
    ensures (|rfc| == 0 || rfc[|rfc| - 1] != '\n') ==> (ValidateRfc(rfc) <==> UnicodeRfcRule(rfc))
  {
    if ValidateRfc(rfc) {
      assert !IsPhpTrimmed(rfc[0]);
    }
  }

  /** The values of the registration form's inputs when it is submitted. */
  datatype RegisterForm = RegisterForm(name: string, email: string, rfc: string,
                                       password: string, confirmation: string)

  /**
   * `handleSubmit` of the registration page: every check runs and clears
   * `isValid` when it fails; the submission is prevented when `isValid` ends
   * false.
   */
  method RegisterSubmit(form: RegisterForm) returns (isValid: bool)
    ensures !isValid <==>
      !ValidateField(form.name) || !ValidateField(form.email) || !ValidateRfc(form.rfc)
      || !ValidateField(form.password) || !ValidateField(form.confirmation)
      || !PasswordsMatch(form.password, form.confirmation)
  {
    isValid := true;
    if !ValidateField(form.name) {
      isValid := false;
    }
    if !ValidateField(form.email) {
      isValid := false;
    }
    if !ValidateRfc(form.rfc) {
      isValid := false;
    }
    if !ValidateField(form.password) {
      isValid := false;
    }
    if !ValidateField(form.confirmation) {
      isValid := false;
    }
    if !PasswordsMatch(form.password, form.confirmation) {
      isValid := false;
    }
  }

  /** The registration form as the server's RegisterRequest sees it. */
  function RegisterInputOf(form: RegisterForm): Requests.RegistrationInput {
    Requests.RegistrationInput(Some(form.name), Some(form.email), Some(form.rfc),
                               Some(form.password), Some(form.confirmation))
  }

  /**
   * A form the page lets through satisfies the server's `confirmed` rule,
   * and its rfc format rule exactly when the RFC's letters, with each 'Ñ'
   * counted twice, are at most four; the page checks neither `min:8` nor
   * uniqueness.
   */
  lemma RegisterSubmitImpliesServerFormat(form: RegisterForm)
    requires ValidateField(form.name) && ValidateField(form.email) && ValidateRfc(form.rfc)
    requires ValidateField(form.password) && ValidateField(form.confirmation)
    requires PasswordsMatch(form.password, form.confirmation)
    ensures Requests.RfcFieldRule(Registration, Some(form.rfc)) <==> |form.rfc| + EnyeCount(form.rfc) <= 13
    ensures RegisterInputOf(form).passwordConfirmation == RegisterInputOf(form).password
  {
    ClientRfcOnServer(form.rfc);
  }

  /** A password of one character passes the page and is refused by the server's `min:8`. */
  lemma ShortPasswordOnlyCaughtByServer()
    ensures ValidateField("a") && PasswordsMatch("a", "a")
    ensures !Requests.PasswordRule(Some("a"), Some("a"))
  {
    assert !IsJsWhitespace("a"[0]);
  }

  /** The values of the reset form's inputs when it is submitted (the page has no name field). */
  datatype ResetForm = ResetForm(email: string, rfc: string, password: string, confirmation: string)

  /** `handleSubmit` of the reset page: the registration checks without the name. */
  method ResetSubmit(form: ResetForm) returns (isValid: bool)
    ensures !isValid <==>
      !ValidateField(form.email) || !ValidateRfc(form.rfc)
      || !ValidateField(form.password) || !ValidateField(form.confirmation)
      || !PasswordsMatch(form.password, form.confirmation)
  {
    isValid := true;
    if !ValidateField(form.email) {
      isValid := false;
    }
    if !ValidateRfc(form.rfc) {
      isValid := false;
    }
    if !ValidateField(form.password) {
      isValid := false;
    }
    if !ValidateField(form.confirmation) {
      isValid := false;
    }
    if !PasswordsMatch(form.password, form.confirmation) {
      isValid := false;
    }
  }

  /**
   * JavaScript's `toUpperCase` on the characters an RFC is typed with: ASCII
   * letters and 'ñ'. Other characters are left as they are.
   */
  function JsUpper(c: char): (d: char)
    ensures !IsAsciiLower(d) && d != 'ñ'
    ensures IsAsciiLower(c) ==> IsAsciiUpper(d)
    ensures c == 'ñ' ==> d == 'Ñ'
    ensures IsAsciiUpper(c) || IsDigit(c) || c == 'Ñ' || c == '&' ==> d == c
  {
    if c == 'ñ' then 'Ñ' else AsciiUpper(c)
  }

  /**
   * The value of the RFC input after a keystroke: `maxLength={13}` keeps at
   * most 13 characters and the `onInput` handler upper-cases them.
   */
  function RfcInputValue(typed: string): (v: string)
    ensures |v| == if |typed| <= 13 then |typed| else 13
    ensures forall i :: 0 <= i < |v| ==> v[i] == JsUpper(typed[i])
    ensures forall i :: 0 <= i < |v| ==> !IsAsciiLower(v[i]) && v[i] != 'ñ'
  {
    var kept := if |typed| <= 13 then typed else typed[..13];
    seq(|kept|, i requires 0 <= i < |kept| => JsUpper(kept[i]))
  }

  /** Handling the input again changes nothing. */
  lemma RfcInputIdempotent(typed: string)
    ensures RfcInputValue(RfcInputValue(typed)) == RfcInputValue(typed)
  {
    var v := RfcInputValue(typed);
    assert forall i :: 0 <= i < |v| ==> JsUpper(v[i]) == v[i];
  }

  /** A valid RFC typed as it is stays exactly as typed. */
  lemma ValidRfcUnchangedByInput(rfc: string)
    requires ValidateRfc(rfc)
    ensures RfcInputValue(rfc) == rfc
  {
    assert forall i :: 0 <= i < |rfc| ==>
      IsAsciiUpper(rfc[i]) || IsDigit(rfc[i]) || rfc[i] == 'Ñ' || rfc[i] == '&';
    assert forall i :: 0 <= i < |rfc| ==> RfcInputValue(rfc)[i] == rfc[i];
  }

  /**
   * An RFC typed with letters in either case (three or four letters, six
   * digits, three letters or digits) is valid once the input handler has
   * upper-cased it.
   */
  lemma LowerCaseTypingAccepted(typed: string)
    requires 12 <= |typed| <= 13
    requires forall i :: 0 <= i < |typed| - 9 ==>
      IsAsciiUpper(typed[i]) || IsAsciiLower(typed[i]) || typed[i] == 'ñ' || typed[i] == 'Ñ' || typed[i] == '&'
    requires forall i :: |typed| - 9 <= i < |typed| - 3 ==> IsDigit(typed[i])
    requires forall i :: |typed| - 3 <= i < |typed| ==> IsAsciiUpper(typed[i]) || IsAsciiLower(typed[i]) || IsDigit(typed[i])
    ensures ValidateRfc(RfcInputValue(typed))
  {
    var v := RfcInputValue(typed);
    assert MatchesWithPrefix(v, |typed| - 9);
  }

  /** The same RFC typed in lower case is rejected as typed and accepted once upper-cased. */
  lemma LowerCaseExample()
    ensures !ValidateRfc("abcd123456ef7") && ValidateRfc(RfcInputValue("abcd123456ef7"))
  {
    LowerCaseRejected(Registration, "abcd123456ef7", 0);
    LowerCaseTypingAccepted("abcd123456ef7");
  }
}
