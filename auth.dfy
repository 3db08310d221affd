/**
 * The users table and AuthService: registration stores a hashed password,
 * and the email-and-RFC reset overwrites the password of the first user
 * holding both values. CreateNewUser (validate, then register) and
 * AuthController::resetPassword (validate, reset, report) sit on top.
 *
 * `Hash::make` draws a random salt; it is the table's `hash` function applied
 * to a salt the caller supplies and the plaintext.
 */
module Auth {
  import opened Options
  import Requests

  datatype User = User(id: nat, name: string, email: string, rfc: string, password: string)

  predicate HasEmailAndRfc(u: User, email: string, rfc: string) {
    u.email == email && u.rfc == rfc
  }

  /**
   * The row `User::where('email', ...)->where('rfc', ...)->first()` returns:
   * both conditions on the same row, the first such row in table order.
   */
  function FirstMatch(users: seq<User>, email: string, rfc: string): (k: Option<nat>)
    ensures k.Some? ==> k.value < |users| && HasEmailAndRfc(users[k.value], email, rfc)
    ensures k.Some? ==> forall j :: 0 <= j < k.value ==> !HasEmailAndRfc(users[j], email, rfc)
    ensures k.None? <==> forall j :: 0 <= j < |users| ==> !HasEmailAndRfc(users[j], email, rfc)
  {
    if users == [] then None
    else if HasEmailAndRfc(users[0], email, rfc) then Some(0)
    else
      match FirstMatch(users[1..], email, rfc)
      case None => None
      case Some(k) => Some(k + 1)
  }

  /**
   * In a table whose emails and RFCs are unique, the email of one account
   * and the RFC of another are not a match: the reset finds nothing.
   */
  lemma SplitCredentialsDoNotMatch(users: seq<User>, email: string, rfc: string, a: nat, b: nat)
    requires UniqueCredentials(users)
    requires a < |users| && b < |users| && a != b
    requires users[a].email == email && users[b].rfc == rfc
    ensures FirstMatch(users, email, rfc).None?
  {
    forall j | 0 <= j < |users|
      ensures !HasEmailAndRfc(users[j], email, rfc)
    {
      if j != a {
        DistinctRows(users, a, j);
      } else {
        DistinctRows(users, b, j);
      }
    }
  }

  /** Two different rows of a table with unique credentials differ in both email and RFC. */
  lemma DistinctRows(users: seq<User>, i: nat, j: nat)
    requires UniqueCredentials(users) && i < |users| && j < |users| && i != j
    ensures users[i].email != users[j].email && users[i].rfc != users[j].rfc
  {
    if j < i {
      assert users[j].email != users[i].email;
    }
  }

  function Emails(users: seq<User>): set<string> { set u | u in users :: u.email }

  function Rfcs(users: seq<User>): set<string> { set u | u in users :: u.rfc }

  /** No two users share an email, and no two share an RFC. */
  predicate UniqueCredentials(users: seq<User>) {
    forall i, j :: 0 <= i < j < |users| ==> users[i].email != users[j].email && users[i].rfc != users[j].rfc
  }

  predicate DistinctIds(users: seq<User>) {
    forall i, j :: 0 <= i < j < |users| ==> users[i].id != users[j].id
  }

  class UserTable {
    var users: seq<User>
    var nextId: nat
    /** `Hash::make`, with its random salt as the first argument. */
    const hash: (nat, string) -> string

    ghost predicate Valid()
      reads this
    {
      DistinctIds(users) && forall i :: 0 <= i < |users| ==> users[i].id < nextId
    }

    constructor (hash: (nat, string) -> string)
      ensures Valid() && users == [] && this.hash == hash
    {
      users := [];
      nextId := 1;
      this.hash := hash;
    }

    /**
     * `register`: inserts a user with the given name, email and RFC and the
     * hash of the password; the plaintext is not stored.
     */
    method Register(name: string, email: string, rfc: string, password: string, salt: nat)
      returns (u: User)
      requires Valid()
      modifies this
      ensures Valid()
      ensures u == User(u.id, name, email, rfc, hash(salt, password))
      ensures users == old(users) + [u]
      ensures forall i :: 0 <= i < |old(users)| ==> old(users)[i].id != u.id
    {
      u := User(nextId, name, email, rfc, hash(salt, password));
      users := users + [u];
      nextId := nextId + 1;
    }

    /** The query of the reset: a scan for the first row holding both values. */
    method FindByEmailAndRfc(email: string, rfc: string) returns (k: Option<nat>)
      ensures k == FirstMatch(users, email, rfc)
    {
      var i := 0;
      while i < |users|
        invariant 0 <= i <= |users|
        invariant forall j :: 0 <= j < i ==> !HasEmailAndRfc(users[j], email, rfc)
      {
        if HasEmailAndRfc(users[i], email, rfc) {
          FirstMatchIsFirst(users, email, rfc, i);
          return Some(i);
        }
        i := i + 1;
      }
      return None;
    }

    /**
     * `resetPasswordByEmailAndRfc`: false, with nothing changed, when no row
     * holds both the email and the RFC; otherwise the password of the first
     * such row becomes the hash of the new password and true is returned.
     * Other fields and other users are untouched.
     */
    method ResetPasswordByEmailAndRfc(email: string, rfc: string, newPassword: string, salt: nat)
      returns (ok: bool)
      requires Valid()
      modifies this
      ensures Valid() && nextId == old(nextId)
      ensures ok <==> FirstMatch(old(users), email, rfc).Some?
      ensures !ok ==> users == old(users)
      ensures ok ==>
        var k := FirstMatch(old(users), email, rfc).value;
        users == old(users)[k := old(users)[k].(password := hash(salt, newPassword))]
    {
      var k := FindByEmailAndRfc(email, rfc);
      if k.None? {
        return false;
      }
      var u := users[k.value];
      users := users[k.value := u.(password := hash(salt, newPassword))];
      ok := true;
    }
  }

  lemma FirstMatchIsFirst(users: seq<User>, email: string, rfc: string, i: nat)
    requires i < |users| && HasEmailAndRfc(users[i], email, rfc)
    requires forall j :: 0 <= j < i ==> !HasEmailAndRfc(users[j], email, rfc)
    ensures FirstMatch(users, email, rfc) == Some(i)
  {
    var k := FirstMatch(users, email, rfc);
    assert k.Some?;
    assert !(k.value < i);
    assert !(i < k.value);
  }

  /** The reset keeps emails and RFCs unique: it changes only a password. */
  lemma ResetKeepsCredentials(users: seq<User>, k: nat, pw: string)
    requires k < |users| && UniqueCredentials(users)
    ensures UniqueCredentials(users[k := users[k].(password := pw)])
    ensures Emails(users[k := users[k].(password := pw)]) == Emails(users)
  {
    var after := users[k := users[k].(password := pw)];
    forall e | e in Emails(users) ensures e in Emails(after) {
      var i :| 0 <= i < |users| && users[i].email == e;
      assert after[i].email == e;
    }
  }

  datatype Registration = Invalid(errors: set<Requests.Field>) | Registered(user: User)

  /**
   * CreateNewUser::create: validate, then register. `passwordRules` stands for
   * the unseen PasswordValidationRules; whatever it accepts has a password.
   * On a validation failure no user is created. A registration never
   * introduces a second user with the same email or the same RFC.
   */
  method CreateNewUser(table: UserTable, input: Requests.RegistrationInput, isEmail: string -> bool,
                       passwordRules: (Option<string>, Option<string>) -> bool, salt: nat)
    returns (r: Registration)
    requires table.Valid()
    requires forall p, c :: passwordRules(p, c) ==> p.Some?
    modifies table
    ensures table.Valid()
    ensures r.Invalid? <==>
      Requests.CreateNewUserErrors(input, isEmail, passwordRules, Emails(old(table.users)), Rfcs(old(table.users))) != {}
    ensures r.Invalid? ==> table.users == old(table.users)
    ensures r.Registered? ==>
      && table.users == old(table.users) + [r.user]
      && Some(r.user.name) == input.name && Some(r.user.email) == input.email && Some(r.user.rfc) == input.rfc
      && r.user.password == table.hash(salt, input.password.value)
    ensures UniqueCredentials(old(table.users)) ==> UniqueCredentials(table.users)
  {
    var errs := Requests.CreateNewUserErrors(input, isEmail, passwordRules, Emails(table.users), Rfcs(table.users));
    if errs != {} {
      return Invalid(errs);
    }
    ghost var before := table.users;
    var u := table.Register(input.name.value, input.email.value, input.rfc.value, input.password.value, salt);
    r := Registered(u);
    forall i | 0 <= i < |before| ensures before[i].email != u.email && before[i].rfc != u.rfc {
      assert before[i] in before;
    }
  }

  /** What the reset endpoint answers. */
  datatype ResetOutcome =
    | ValidationFailed(errors: set<Requests.Field>)
    | EmailAndRfcMismatch     // back to the form, with the error on the email field
    | RedirectToLogin         // to the login page, with a status message

  /**
   * AuthController::resetPassword: ResetPasswordRequest validates first; then
   * the service decides between the error on the email field and the
   * redirect to login.
   */
  method ResetPassword(table: UserTable, input: Requests.ResetInput, isEmail: string -> bool, salt: nat)
    returns (outcome: ResetOutcome)
    requires table.Valid()
    modifies table
    ensures table.Valid()
    ensures outcome.ValidationFailed? <==> Requests.ResetErrors(input, isEmail, Emails(old(table.users))) != {}
    ensures !outcome.RedirectToLogin? ==> table.users == old(table.users)
    ensures outcome.RedirectToLogin? <==>
      && Requests.ResetErrors(input, isEmail, Emails(old(table.users))) == {}
      && FirstMatch(old(table.users), input.email.value, input.rfc.value).Some?
    ensures outcome.RedirectToLogin? ==>
      var k := FirstMatch(old(table.users), input.email.value, input.rfc.value).value;
      table.users == old(table.users)[k := old(table.users)[k].(password := table.hash(salt, input.password.value))]
  {
    var errs := Requests.ResetErrors(input, isEmail, Emails(table.users));
    if errs != {} {
      return ValidationFailed(errs);
    }
    var ok := table.ResetPasswordByEmailAndRfc(input.email.value, input.rfc.value, input.password.value, salt);
    if !ok {
      return EmailAndRfcMismatch;
    }
    outcome := RedirectToLogin;
  }
}
