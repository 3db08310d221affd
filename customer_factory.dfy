/**
 * CustomerFactory: the attributes of a generated customer and the two
 * states `forUser` and `minimal`. The values Faker draws are parameters; a
 * draw has the shape Faker guarantees for its format (`lexify` gives a
 * lower-case ASCII letter per '?', `numerify` a digit per '#').
 */
module CustomerFactory {
  import opened Options
  import opened Strings
  import opened Rfc
  import AuthForms

  /** The attributes a factory hands to `Customer::create`. */
  datatype Attributes = Attributes(
    userId: int,
    name: string,
    rfc: string,
    address: Option<string>,
    phone: Option<string>,
    website: Option<string>)

  predicate Lexified(s: string, n: nat) {
    |s| == n && forall i :: 0 <= i < n ==> IsAsciiLower(s[i])
  }

  predicate Numerified(s: string, n: nat) {
    |s| == n && forall i :: 0 <= i < n ==> IsDigit(s[i])
  }

  /** The output of `bothify('?##')`: a letter and two digits. */
  predicate BothifiedLetterDigitDigit(s: string) {
    |s| == 3 && IsAsciiLower(s[0]) && IsDigit(s[1]) && IsDigit(s[2])
  }

  /**
   * The generated RFC: four upper-cased letters, six digits, one upper-cased
   * letter and two digits. It is ASCII, so it passes every RFC check in the
   * repository: both server rules, read on bytes, and the browser check.
   */
  function FactoryRfc(letters: string, digits: string, tail: string): (rfc: string)
    requires Lexified(letters, 4) && Numerified(digits, 6) && BothifiedLetterDigitDigit(tail)
    ensures |rfc| == 13
    ensures MatchesWithPrefix(rfc, 4) && AsciiString(rfc)
    ensures RfcRule(Registration, rfc) && RfcRule(CustomerUpdate, rfc)
    ensures AuthForms.ValidateRfc(rfc)
  {
    var rfc := UpperAll(letters) + digits + UpperAll(tail);
    assert forall i :: 0 <= i < 4 ==> rfc[i] == AsciiUpper(letters[i]);
    assert forall i :: 4 <= i < 10 ==> rfc[i] == digits[i - 4];
    assert forall i :: 10 <= i < 13 ==> rfc[i] == AsciiUpper(tail[i - 10]);
    assert MatchesWithPrefix(rfc, 4);
    ServerRuleShape(Registration, rfc);
    ServerRuleShape(CustomerUpdate, rfc);
    rfc
  }

  /** `definition`: the owner (a user the factory creates) and Faker's draws. */
  function Definition(owner: int, company: string, letters: string, digits: string, tail: string,
                      address: string, phone: string, url: string): (a: Attributes)
    requires Lexified(letters, 4) && Numerified(digits, 6) && BothifiedLetterDigitDigit(tail)
    ensures a.userId == owner && a.name == company
    ensures RfcRule(Registration, a.rfc) && RfcRule(CustomerUpdate, a.rfc)
    ensures a.address.Some? && a.phone.Some? && a.website.Some?
  {
    Attributes(owner, company, FactoryRfc(letters, digits, tail), Some(address), Some(phone), Some(url))
  }

  /** `forUser`: the owner becomes the given user; nothing else changes. */
  function ForUser(a: Attributes, userId: int): (r: Attributes)
    ensures r.userId == userId
    ensures r.(userId := a.userId) == a
  {
    a.(userId := userId)
  }

  /** `minimal`: address, phone and website become null; owner, name and RFC stay. */
  function Minimal(a: Attributes): (r: Attributes)
    ensures r.address.None? && r.phone.None? && r.website.None?
    ensures r.(address := a.address, phone := a.phone, website := a.website) == a
  {
    a.(address := None, phone := None, website := None)
  }

  /**
   * The two states touch disjoint attributes, so the seeder's
   * `forUser(...)->minimal()` gives the same customer in either order, and
   * its RFC is still the generated one.
   */
  lemma StatesCommute(a: Attributes, userId: int)
    ensures Minimal(ForUser(a, userId)) == ForUser(Minimal(a), userId)
    ensures Minimal(ForUser(a, userId)).rfc == a.rfc
    ensures Minimal(ForUser(a, userId)).name == a.name
  {
  }
}
