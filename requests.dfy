/**
 * The server-side rule tables: RegisterRequest, ResetPasswordRequest, the
 * validator of CreateNewUser and UpdateCustomerRequest. Each table becomes a
 * function giving the set of fields that fail; a request passes when that
 * set is empty. Laravel's `email` and `url` rules and the password rules of
 * the unseen PasswordValidationRules trait are parameters.
 */
module Requests {
  import opened Options
  import opened Strings
  import opened Rfc

  datatype Field = NameField | EmailField | RfcField | PasswordField | AddressField | PhoneField | WebsiteField

  /** `required`: present and not blank after PHP's `trim`. */
  function Required(v: Option<string>): (r: bool)
    ensures v.None? || v == Some("") || v == Some(" ") ==> !r
    ensures r ==> |v.value| > 0
  {
    v.Some? && !PhpBlank(v.value)
  }

  /** `max:n` on a string, counted in characters. */
  predicate AtMost(v: Option<string>, n: nat) {
    v.Some? ==> |v.value| <= n
  }

  /** `min:8` and `confirmed`: the `password_confirmation` field holds the same string. */
  function PasswordRule(password: Option<string>, confirmation: Option<string>): (r: bool)
    ensures r ==> confirmation.Some? && |confirmation.value| >= 8
  {
    Required(password) && |password.value| >= 8 && confirmation == password
  }

  /** `required`, `regex` and `between:12,13` on the rfc field. */
  function RfcFieldRule(a: Alphabet, v: Option<string>): (r: bool)
    ensures r ==> v.Some? && 12 <= |v.value| <= 13
  {
    Required(v) && RfcRule(a, v.value)
  }

  /** The fields of the registration form (and of the input of CreateNewUser). */
  datatype RegistrationInput = RegistrationInput(
    name: Option<string>,
    email: Option<string>,
    rfc: Option<string>,
    password: Option<string>,
    passwordConfirmation: Option<string>)

  /**
   * The name, email and rfc rules shared word for word by RegisterRequest and
   * CreateNewUser. `takenEmails` and `takenRfcs` are the email and rfc columns
   * of the users table, against which `Rule::unique` checks.
   */
  function IdentityErrors(input: RegistrationInput, isEmail: string -> bool,
                          takenEmails: set<string>, takenRfcs: set<string>): (errs: set<Field>)
    ensures errs <= {NameField, EmailField, RfcField}
    ensures NameField in errs <==> !Required(input.name) || |input.name.value| > 255
    ensures EmailField in errs <==>
      !Required(input.email) || !isEmail(input.email.value) || |input.email.value| > 255
      || input.email.value in takenEmails
    ensures RfcField in errs <==>
      !Required(input.rfc) || !RfcRule(Registration, input.rfc.value) || input.rfc.value in takenRfcs
  {
    (if Required(input.name) && AtMost(input.name, 255) then {} else {NameField})
    + (if Required(input.email) && isEmail(input.email.value) && AtMost(input.email, 255)
          && input.email.value !in takenEmails
       then {} else {EmailField})
    + (if RfcFieldRule(Registration, input.rfc) && input.rfc.value !in takenRfcs
       then {} else {RfcField})
  }

  /** RegisterRequest::rules. */
  function RegisterErrors(input: RegistrationInput, isEmail: string -> bool,
                          takenEmails: set<string>, takenRfcs: set<string>): (errs: set<Field>)
    ensures errs <= {NameField, EmailField, RfcField, PasswordField}
    ensures errs - {PasswordField} == IdentityErrors(input, isEmail, takenEmails, takenRfcs)
    ensures PasswordField in errs <==>
      !Required(input.password) || |input.password.value| < 8 || input.passwordConfirmation != input.password
  {
    IdentityErrors(input, isEmail, takenEmails, takenRfcs)
    + (if PasswordRule(input.password, input.passwordConfirmation) then {} else {PasswordField})
  }

  /**
   * The validator of CreateNewUser::create: the same name, email and rfc
   * rules, and the password rules of PasswordValidationRules, given here as
   * `passwordRules`.
   */
  function CreateNewUserErrors(input: RegistrationInput, isEmail: string -> bool,
                               passwordRules: (Option<string>, Option<string>) -> bool,
                               takenEmails: set<string>, takenRfcs: set<string>): (errs: set<Field>)
    ensures errs <= {NameField, EmailField, RfcField, PasswordField}
    ensures PasswordField in errs <==> !passwordRules(input.password, input.passwordConfirmation)
  {
    IdentityErrors(input, isEmail, takenEmails, takenRfcs)
    + (if passwordRules(input.password, input.passwordConfirmation) then {} else {PasswordField})
  }

  /** The two registration validators differ at most in the password field. */
  lemma RegistrationValidatorsAgree(input: RegistrationInput, isEmail: string -> bool,
                                    passwordRules: (Option<string>, Option<string>) -> bool,
                                    takenEmails: set<string>, takenRfcs: set<string>)
    ensures RegisterErrors(input, isEmail, takenEmails, takenRfcs) - {PasswordField}
         == CreateNewUserErrors(input, isEmail, passwordRules, takenEmails, takenRfcs) - {PasswordField}
  {
  }

  /** An email or an RFC already on file makes registration fail. */
  lemma RegistrationRejectsTaken(input: RegistrationInput, isEmail: string -> bool,
                                 takenEmails: set<string>, takenRfcs: set<string>)
    requires (input.email.Some? && input.email.value in takenEmails)
          || (input.rfc.Some? && input.rfc.value in takenRfcs)
    ensures RegisterErrors(input, isEmail, takenEmails, takenRfcs) != {}
  {
  }

  /** The fields of the reset form. */
  datatype ResetInput = ResetInput(
    email: Option<string>,
    rfc: Option<string>,
    password: Option<string>,
    passwordConfirmation: Option<string>)

  /** ResetPasswordRequest::rules: `exists:users,email`, the rfc format (no uniqueness rule), the password rules. */
  function ResetErrors(input: ResetInput, isEmail: string -> bool, userEmails: set<string>): (errs: set<Field>)
    ensures errs <= {EmailField, RfcField, PasswordField}
    ensures EmailField in errs <==>
      !Required(input.email) || !isEmail(input.email.value) || input.email.value !in userEmails
    ensures RfcField in errs <==> !Required(input.rfc) || !RfcRule(Registration, input.rfc.value)
    ensures PasswordField in errs <==>
      !Required(input.password) || |input.password.value| < 8 || input.passwordConfirmation != input.password
  {
    (if Required(input.email) && isEmail(input.email.value) && input.email.value in userEmails
     then {} else {EmailField})
    + (if RfcFieldRule(Registration, input.rfc) then {} else {RfcField})
    + (if PasswordRule(input.password, input.passwordConfirmation) then {} else {PasswordField})
  }

  /**
   * The reset rules have no uniqueness rule on the RFC: the email and RFC of
   * a registered account, with a confirmed password of at least 8
   * characters, pass.
   */
  lemma ResetAcceptsRegisteredRfc(email: string, rfc: string, password: string,
                                  isEmail: string -> bool, userEmails: set<string>)
    requires email in userEmails && isEmail(email) && !PhpBlank(email)
    requires RfcRule(Registration, rfc)
    requires |password| >= 8 && !PhpBlank(password)
    ensures ResetErrors(ResetInput(Some(email), Some(rfc), Some(password), Some(password)), isEmail, userEmails) == {}
  {
    RuleNotBlank(Registration, rfc);
  }

  /**
   * The fields of the customer form. A nullable field has three states: the
   * key is absent (`None`), present and null (`Some(None)`), or present with
   * a string (`Some(Some(s))`).
   */
  datatype CustomerInput = CustomerInput(
    name: Option<string>,
    rfc: Option<string>,
    address: Option<Option<string>>,
    phone: Option<Option<string>>,
    website: Option<Option<string>>)

  /** The string a nullable field holds, if any. */
  function Given(v: Option<Option<string>>): Option<string> {
    if v.Some? then v.value else None
  }

  /**
   * The string a nullable field's non-implicit rules (`string`, `max`, `url`)
   * are run on: the validator skips them on a missing or null value and on a
   * string that PHP's `trim` empties.
   */
  function Checked(v: Option<Option<string>>): (s: Option<string>)
    ensures s.Some? <==> Given(v).Some? && !PhpBlank(Given(v).value)
    ensures s.Some? ==> s == Given(v)
  {
    if Given(v).Some? && !PhpBlank(Given(v).value) then Given(v) else None
  }

  /**
   * UpdateCustomerRequest::rules: name and rfc required, the rfc checked with
   * the mis-encoded letter class and with no uniqueness rule, address, phone
   * and website nullable with their length bounds, website a URL (`isUrl`).
   */
  function UpdateCustomerErrors(input: CustomerInput, isUrl: string -> bool): (errs: set<Field>)
    ensures errs <= {NameField, RfcField, AddressField, PhoneField, WebsiteField}
    ensures NameField in errs <==> !Required(input.name) || |input.name.value| > 255
    ensures RfcField in errs <==> !Required(input.rfc) || !RfcRule(CustomerUpdate, input.rfc.value)
    ensures AddressField in errs <==>
      Given(input.address).Some? && !PhpBlank(Given(input.address).value) && |Given(input.address).value| > 500
    ensures PhoneField in errs <==>
      Given(input.phone).Some? && !PhpBlank(Given(input.phone).value) && |Given(input.phone).value| > 20
    ensures WebsiteField in errs <==>
      Given(input.website).Some? && !PhpBlank(Given(input.website).value)
      && (!isUrl(Given(input.website).value) || |Given(input.website).value| > 255)
  {
    (if Required(input.name) && AtMost(input.name, 255) then {} else {NameField})
    + (if RfcFieldRule(CustomerUpdate, input.rfc) then {} else {RfcField})
    + (if AtMost(Checked(input.address), 500) then {} else {AddressField})
    + (if AtMost(Checked(input.phone), 20) then {} else {PhoneField})
    + (if Checked(input.website).None? || (isUrl(Checked(input.website).value) && AtMost(Checked(input.website), 255))
       then {} else {WebsiteField})
  }

  /**
   * An RFC holding 'Ñ' in a three-letter prefix passes registration but
   * fails the customer update rule: a customer cannot be given the RFC of
   * such a user.
   */
  lemma CustomerUpdateRejectsEnye(input: CustomerInput, isUrl: string -> bool)
    requires input.rfc == Some("ÑAB010101AB1")
    ensures RfcFieldRule(Registration, input.rfc)
    ensures RfcField in UpdateCustomerErrors(input, isUrl)
  {
    EnyeWitness();
    assert !IsPhpTrimmed(input.rfc.value[0]);
  }
}
