# Laravel practice app: verified model of its core

This project models the core of a small Laravel + React application. It has
five parts:

- **Palindrome detection.** It normalises and reverses words, and builds a verdict for each word of a list.
- **RFC checks.** A Mexican taxpayer id (RFC) is checked by the same pattern in five places. The browser reads the pattern on characters; the server's `preg_match`, which has no `u` modifier, reads it on the string's UTF-8 bytes. The places are:
  - the registration validators on the server;
  - the password-reset validator on the server;
  - the customer-update rule on the server, whose copy carries a mis-encoded "Ñ";
  - the registration and reset forms in the browser;
  - the customer factory, which builds RFCs from pieces.
- **User accounts.** Registration stores a hashed password. A password reset needs both the email and the RFC.
- **Customers.** The store is scoped to its owner. It has a page-size allow-list and an owner guard on update and delete.
- **Browser and session state.** This covers the posts page's session overlay (local, edited and deleted posts over a remote list) and the palindrome page's word-list editor.

Each source entity becomes one of two things:

- Code that only computes becomes datatypes, functions and lemmas.
- State updated in place becomes a class whose methods reassign its fields. These are the users table, the customers table, the three session collections and the word-list editor.

Library behaviour the application relies on is modelled explicitly:

- PHP `trim` (used by `required`), and JavaScript `trim`;
- the PCRE reading of a pattern without the `u` modifier, on UTF-8 bytes, and of `$`, which also matches before a final line feed;
- Laravel's length-aware paginator.

Opaque pieces are parameters:

- the `email` and `url` rules;
- the password rules of the PasswordValidationRules trait;
- `Hash::make`, written as a hash function applied to a salt and the plaintext;
- the clock (`created_at`);
- the remote post list.

Modules and files:

| file | module | models |
|---|---|---|
| strings.dfy | Options, Strings | Option; ASCII classes and case maps; PHP and JavaScript whitespace; UTF-8 encoding of a string |
| palindrome.dfy | Palindrome | PalindromeService, the detect endpoint's rules |
| rfc.dfy | Rfc | the RFC pattern read on characters as JavaScript does, and on bytes, in its two byte classes, as PCRE does |
| requests.dfy | Requests | RegisterRequest, CreateNewUser's validator, ResetPasswordRequest, UpdateCustomerRequest |
| auth_forms.dfy | AuthForms | the register and reset-password pages' browser checks |
| customer_factory.dfy | CustomerFactory | CustomerFactory |
| auth.dfy | Auth | the users table, AuthService, CreateNewUser, AuthController::resetPassword |
| pagination.dfy | Pagination | the length-aware paginator |
| customers.dfy | Customers | the customers table, CustomerService, CustomerController |
| post_overlay.dfy | PostOverlay | the session overlay driven by ServiceController |
| word_editor.dfy | WordEditor | the palindrome page's editor state and submit filter |

## Model

| member | source | states |
|---|---|---|
| Strings.AsciiLower | app/Services/PalindromeService.php:13 | `strtolower` on one character maps an upper-case ASCII letter to a lower-case letter that upper-cases back to it, keeps every other character, and keeps alphanumerics alphanumeric |
| Strings.Utf8 | app/Http/Requests/Auth/RegisterRequest.php:38 | the bytes PHP holds for one character: one byte equal to the code point exactly for ASCII, otherwise a lead byte of at least 0xC2 followed by continuation bytes 0x80..0xBF |
| Strings.Utf8RoundTrip | app/Http/Requests/Auth/RegisterRequest.php:38 | decoding the bytes of a character gives back its code point |
| Strings.Utf8String | app/Http/Requests/Auth/RegisterRequest.php:38 | a string has at least as many bytes as characters, and exactly as many when it is ASCII |
| Strings.Utf8Concat | app/Http/Requests/Auth/RegisterRequest.php:38 | the bytes of a concatenation are the concatenated bytes |
| Strings.Utf8OfAscii | app/Http/Requests/Auth/RegisterRequest.php:38 | an ASCII string's bytes are its code points, position by position |
| Palindrome.StripNonAlnum | app/Services/PalindromeService.php:13 | removing every character outside `[a-zA-Z0-9]` leaves only alphanumerics and never lengthens the word |
| Palindrome.Cleaned | app/Services/PalindromeService.php:13 | the cleaned word holds only alphanumerics and no upper-case letter |
| Palindrome.IsPalindrome | app/Services/PalindromeService.php:16 | a word whose cleaned form has at most one character is a palindrome (the verdict is the cleaned form equal to its reverse) |
| Palindrome.Reverse | app/Services/PalindromeService.php:16 | `strrev`: the same length, with position i holding the character at the mirrored position |
| Palindrome.PalindromeIffMirrored | app/Services/PalindromeService.php:10-17 | a word is a palindrome exactly when its cleaned form reads the same at every pair of mirrored positions |
| Palindrome.StripConcat | app/Services/PalindromeService.php:13 | stripping distributes over concatenation |
| Palindrome.StripNoAlnum | app/Services/PalindromeService.php:13 | a word with no alphanumerics strips to the empty string |
| Palindrome.NoAlnumIsPalindrome | tests/Unit/PalindromeServiceTest.php:36-38 | the empty word, and any word without alphanumerics, is a palindrome |
| Palindrome.NonAlnumInsertion | tests/Unit/PalindromeServiceTest.php:40-43 | inserting non-alphanumeric text anywhere in a word does not change its verdict |
| Palindrome.CleanedIgnoresCase | app/Services/PalindromeService.php:13 | two words equal up to ASCII case have the same cleaned form |
| Palindrome.CaseInsensitive | tests/Unit/PalindromeServiceTest.php:30-34 | two words equal up to ASCII case get the same verdict |
| Palindrome.StripKeepsAlnum | app/Services/PalindromeService.php:13 | an all-alphanumeric word strips to itself |
| Palindrome.MirroredLowerWord | app/Services/PalindromeService.php:13-16 | a lower-case alphanumeric word that mirrors itself is its own cleaned form and a palindrome |
| Palindrome.UnmirroredLowerWord | app/Services/PalindromeService.php:13-16 | a lower-case alphanumeric word with one mismatched mirrored pair is not a palindrome |
| Palindrome.LowerCaseForm | app/Services/PalindromeService.php:13 | a word and its lower-case form get the same verdict |
| Palindrome.KnownPalindromes | tests/Unit/PalindromeServiceTest.php:10-21 | "oso", "radar", "reconocer", "anilina", "oro", "php", "solos", "kayak" and "salas" are palindromes |
| Palindrome.MirroredUpToCase | app/Services/PalindromeService.php:13-16 | an alphanumeric word whose mirrored characters agree up to case is a palindrome |
| Palindrome.KnownMixedCasePalindromes | tests/Unit/PalindromeServiceTest.php:30-34 | "Radar", "RECONOCER" and "AnIlInA" are palindromes |
| Palindrome.SeparatedPalindrome | app/Services/PalindromeService.php:13-16 | a three-letter palindrome with a separator between its letters is a palindrome |
| Palindrome.KnownSeparatedPalindromes | tests/Unit/PalindromeServiceTest.php:40-43 | "a b a" and "a-b-a" are palindromes |
| Palindrome.KnownNonPalindromes | tests/Unit/PalindromeServiceTest.php:23-28 | "hello", "world", "laravel" and "nivel" are not palindromes |
| Palindrome.DetectPalindromes | app/Services/PalindromeService.php:25-34 | the map's keys are exactly the distinct input words, each mapped to its verdict; it has at most as many entries as there are words, and none for an empty list |
| Palindrome.DetectRequestValid | app/Http/Controllers/AlgorithmController.php:30-33 | a request without `words` is invalid; in a valid one every word is a non-empty string |
| Palindrome.Detect | app/Http/Controllers/AlgorithmController.php:28-41 | a request without `words`, with fewer than two, or with a non-string or blank word is rejected before detection; otherwise the verdicts cover exactly the submitted words |
| Rfc.MatchesPattern | resources/js/pages/auth/register.tsx:41 | a browser match has 12 or 13 characters, starts with three letters of `[A-ZÑ&]` and has six digits before its last three characters |
| Rfc.PcreMatches | app/Http/Requests/Auth/RegisterRequest.php:38 | a server match has at most 14 bytes, so at most 14 characters |
| Rfc.RfcRule | app/Http/Requests/Auth/RegisterRequest.php:38-39 | a string passing `regex` and `between:12,13` has 12 or 13 characters and 12 to 14 bytes |
| Rfc.MatchLength | app/Http/Requests/Auth/RegisterRequest.php:38-39 | a browser match has 12 or 13 characters; an anchored byte match has 12 or 13 bytes; a server match, with `$` before a final line feed, has 12 to 14 bytes |
| Rfc.ServerRuleShape | app/Http/Requests/Auth/RegisterRequest.php:38-39 | on ASCII text the server rule accepts exactly the browser's matches plus a three-letter RFC followed by a line feed |
| Rfc.RuleNotBlank | app/Http/Requests/Auth/RegisterRequest.php:36-39 | a string that passes the rfc rule is never blank for `required` |
| Rfc.ForeignByteRejected | app/Http/Requests/Auth/RegisterRequest.php:38 | a character one of whose bytes lies outside the byte class (and is not a line feed) makes the server rule fail |
| Rfc.TrailingLineFeed | app/Http/Requests/Auth/RegisterRequest.php:38-39 | a byte match followed by a line feed matches on the server but not in the browser, and passes `between:12,13` exactly when the RFC has 11 or 12 characters; the TrimStrings middleware strips that line feed before validation, so the case is one of the rule alone |
| Rfc.ThreeLetterLineFeedAccepted | app/Http/Requests/Auth/RegisterRequest.php:38-39 | "ABC123456EF7" plus a line feed passes the server rule and fails the browser pattern (a request never carries it past TrimStrings) |
| Rfc.FourLetterLineFeedTooLong | app/Http/Requests/Auth/RegisterRequest.php:38-39 | "ABCD123456EF7" plus a line feed matches the server pattern but fails `between:12,13` (a request never carries it past TrimStrings) |
| Rfc.LowerCaseRejected | app/Http/Requests/Auth/RegisterRequest.php:38 | the pattern has no case-insensitive flag, so a lower-case letter anywhere fails it on both sides |
| Rfc.EnyeRejectedOnCustomerUpdate | app/Http/Requests/Customer/UpdateCustomerRequest.php:29 | the customer-update byte class lacks 0x91, the second byte of "Ñ", so any RFC holding "Ñ" fails it |
| Rfc.EnyeWitness | app/Http/Requests/Customer/UpdateCustomerRequest.php:29 | "ÑAB010101AB1" (two letters plus "Ñ", 13 bytes) passes the registration rule and fails the customer-update rule |
| Rfc.AlphabetsAgreeOnAscii | app/Http/Requests/Customer/UpdateCustomerRequest.php:29 | on ASCII text the two byte classes accept the same RFCs |
| Rfc.MisEncodedClassLetters | app/Http/Requests/Customer/UpdateCustomerRequest.php:29 | "À", "Ã" or "Ø" followed by "BC010101AB1" passes the customer-update rule, whose class holds their bytes, and fails the registration rule |
| Rfc.UnicodeRuleAgreesOnAscii | app/Http/Requests/Auth/RegisterRequest.php:38-39 | on ASCII text the rule with the `u` modifier accepts exactly what the rule as written accepts |
| Requests.Required | app/Http/Requests/Auth/RegisterRequest.php:27 | `required`: an absent value, "" and " " fail; a value that passes is non-empty |
| Requests.PasswordRule | app/Http/Requests/Auth/RegisterRequest.php:42 | a password that passes has a confirmation of at least 8 characters |
| Requests.RfcFieldRule | app/Http/Requests/Auth/RegisterRequest.php:35-39 | an RFC field that passes is present and has 12 or 13 characters |
| Requests.IdentityErrors | app/Http/Requests/Auth/RegisterRequest.php:27-41 | the name fails exactly when missing, blank or over 255 characters; the email exactly when missing, blank, not an email, over 255 characters or taken; the RFC exactly when missing, blank, failing the rfc rule or taken |
| Requests.RegisterErrors | app/Http/Requests/Auth/RegisterRequest.php:24-44 | the identity fields fail as in IdentityErrors; the password fails exactly when missing, blank, under 8 characters, or different from its confirmation |
| Requests.CreateNewUserErrors | app/Actions/Fortify/CreateNewUser.php:27-44 | the same identity rules as RegisterRequest; the password fails exactly when the password rules reject it |
| Requests.RegistrationValidatorsAgree | app/Actions/Fortify/CreateNewUser.php:27-44 | RegisterRequest and CreateNewUser's validator report the same name, email and RFC failures |
| Requests.RegistrationRejectsTaken | app/Http/Requests/Auth/RegisterRequest.php:33-40 | an email or RFC already on file fails registration |
| Requests.ResetErrors | app/Http/Requests/Auth/ResetPasswordRequest.php:22-34 | the email fails exactly when missing, blank, not an email or not a registered user's; the RFC exactly when missing, blank or failing the registration rfc rule (no uniqueness rule); the password exactly when missing, blank, under 8 characters or different from its confirmation |
| Requests.ResetAcceptsRegisteredRfc | app/Http/Requests/Auth/ResetPasswordRequest.php:26-31 | with no uniqueness rule, an RFC already on file is accepted together with a registered email and a confirmed 8-character password |
| Requests.UpdateCustomerErrors | app/Http/Requests/Customer/UpdateCustomerRequest.php:22-36 | each field fails exactly when its rule is broken: a required name up to 255, a required RFC in the mis-encoded alphabet, and a nullable address up to 500, phone up to 20 and website a URL up to 255, where a null, absent or blank nullable value skips its rules |
| Requests.CustomerUpdateRejectsEnye | app/Http/Requests/Customer/UpdateCustomerRequest.php:26-31 | an RFC with "Ñ" that registration accepts is refused when a customer is updated |
| AuthForms.ValidateField | resources/js/pages/auth/register.tsx:28-38 | a field that passes is non-empty; a field holding only a space or a line feed fails |
| AuthForms.ValidateRfc | resources/js/pages/auth/register.tsx:40-43 | an RFC that passes also passes the blank-field check |
| AuthForms.PasswordsMatch | resources/js/pages/auth/register.tsx:45-61 | two empty strings match; strings of different lengths do not |
| AuthForms.ClientRfcAgreesWithServer | resources/js/pages/auth/register.tsx:40-43 | on ASCII text, what `validateRFC` accepts the server's rfc field accepts, and without a final line feed the two agree exactly |
| AuthForms.ClientRfcOnServer | resources/js/pages/auth/register.tsx:40-43 | an RFC the browser accepts is accepted by the server exactly when its length plus its number of "Ñ" is at most 13 |
| AuthForms.FourLetterEnyeRejected | app/Http/Requests/Auth/RegisterRequest.php:38-39 | a 13-character RFC the browser accepts is refused by the server when it holds "Ñ" |
| AuthForms.EnyeSurnameRejected | app/Http/Requests/Auth/RegisterRequest.php:38-39 | "MUÑO800101AB1" passes the browser check and fails the server's rfc rule |
| AuthForms.ClientAgreesWithUnicodeRule | resources/js/pages/auth/register.tsx:40-43 | with the `u` modifier the server would accept every RFC the browser accepts (and not find it blank), and agree with the browser exactly when there is no final line feed |
| AuthForms.RegisterSubmit | resources/js/pages/auth/register.tsx:106-131 | `handleSubmit` cancels the submit event exactly when the name, email, password or confirmation is blank, the RFC is invalid, or the passwords differ |
| AuthForms.RegisterSubmitImpliesServerFormat | resources/js/pages/auth/register.tsx:106-131 | for a form `handleSubmit` does not cancel, the server accepts the RFC exactly when its length plus its number of "Ñ" is at most 13, and the confirmation equals the password |
| AuthForms.ShortPasswordOnlyCaughtByServer | resources/js/pages/auth/register.tsx:45-61 | the browser lets a one-character password through, and the server's `min:8` rejects it |
| AuthForms.ResetSubmit | resources/js/pages/auth/reset-password-email-rfc.tsx:105-127 | `handleSubmit` cancels the submit event exactly when the email, password or confirmation is blank, the RFC is invalid, or the passwords differ |
| AuthForms.JsUpper | resources/js/pages/auth/register.tsx:212-215 | `toUpperCase` on one character leaves no lower-case ASCII letter or "ñ", and keeps upper-case letters, digits, "Ñ" and "&" |
| AuthForms.RfcInputValue | resources/js/pages/auth/register.tsx:210-215 | the RFC input keeps at most 13 characters, each upper-cased, so it never holds a lower-case letter |
| AuthForms.RfcInputIdempotent | resources/js/pages/auth/reset-password-email-rfc.tsx:203-208 | handling the input twice gives the same value as once |
| AuthForms.ValidRfcUnchangedByInput | resources/js/pages/auth/register.tsx:210-215 | a valid RFC typed in passes through the input unchanged |
| AuthForms.LowerCaseTypingAccepted | resources/js/pages/auth/register.tsx:210-215 | an RFC of three or four letters typed in either case (with "ñ" for "Ñ"), six digits and three letters or digits is valid after the input upper-cases it |
| AuthForms.LowerCaseExample | resources/js/pages/auth/register.tsx:40-43 | "abcd123456ef7" is invalid as typed and valid after the input handler |
| CustomerFactory.FactoryRfc | database/factories/CustomerFactory.php:23-26 | four letters, six digits, one letter and two digits make a 13-character ASCII RFC that both server rules and the browser check accept |
| CustomerFactory.Definition | database/factories/CustomerFactory.php:21-36 | the default customer has the given owner and company name, an RFC both server rules accept, and all optional fields set |
| CustomerFactory.ForUser | database/factories/CustomerFactory.php:41-46 | `forUser` sets the owner and leaves every other attribute as it was |
| CustomerFactory.Minimal | database/factories/CustomerFactory.php:51-58 | `minimal` nulls address, phone and website and leaves the rest as it was |
| CustomerFactory.StatesCommute | database/factories/CustomerFactory.php:41-58 | the two states can be applied in either order, and neither touches the name or RFC |
| Auth.FirstMatch | app/Services/AuthService.php:22-24 | the position of the first user holding both the email and the RFC; none exactly when no user holds both |
| Auth.SplitCredentialsDoNotMatch | app/Services/AuthService.php:22-28 | with unique emails and RFCs, the email of one user and the RFC of a different user never match |
| Auth.UserTable.constructor | app/Services/AuthService.php:10-18 | an empty users table |
| Auth.UserTable.Register | app/Services/AuthService.php:10-18 | appends one user with a fresh id, the given name, email and RFC, and the hash of the password rather than the plaintext |
| Auth.UserTable.FindByEmailAndRfc | app/Services/AuthService.php:22-24 | the scan in table order finds the first user holding both values |
| Auth.UserTable.ResetPasswordByEmailAndRfc | app/Services/AuthService.php:20-34 | false with no change when no user holds both values; otherwise only that first user's password changes, to the hash of the new one |
| Auth.FirstMatchIsFirst | app/Services/AuthService.php:22-24 | the first position holding both values is the one found |
| Auth.ResetKeepsCredentials | app/Services/AuthService.php:30-31 | changing a password keeps emails and RFCs unique and the set of emails the same |
| Auth.CreateNewUser | app/Actions/Fortify/CreateNewUser.php:25-47 | invalid input creates no user; valid input appends one with the given fields and the hashed password, and emails and RFCs stay unique |
| Auth.ResetPassword | app/Http/Controllers/Auth/AuthController.php:31-48 | a validation failure or an email/RFC mismatch changes nothing; a redirect to login happens exactly when the input validates and a user holds both values, and then only that user's password changes |
| Pagination.ResolvePage | app/Http/Controllers/CustomerController.php:31-34 | the current page is the `page` parameter when it is at least 1, otherwise 1 |
| Pagination.LastPage | app/Services/CustomerService.php:18 | the last page is at least 1 and is the smallest page count that holds every item |
| Pagination.Paginate | app/Services/CustomerService.php:18 | a page reports the total, page size and current page, holds at most `perPage` items, position k holding item `(page - 1) * perPage + k` of the list, and the first page holds the first `min(perPage, total)` |
| Pagination.EveryItemOnItsPage | app/Services/CustomerService.php:18 | item i is on page `i / perPage + 1` at position `i % perPage`, and that page is not past the last |
| Customers.Apply | app/Services/CustomerService.php:36-41 | filling attributes changes exactly the supplied fields, never the id or `created_at` |
| Customers.ApplyUnique | app/Services/CustomerService.php:38 | any row that carries the supplied fields and keeps the others is the filled row |
| Customers.ApplyIdempotent | app/Services/CustomerService.php:38 | filling twice equals filling once, and an empty array changes nothing |
| Customers.FindIndex | app/Services/CustomerService.php:48-51 | the position of the row with the id; none exactly when no row has it |
| Customers.OwnedBy | app/Services/CustomerService.php:16 | exactly the rows whose `user_id` is the owner |
| Customers.InsertNewest | app/Services/CustomerService.php:17 | inserting adds exactly the one row |
| Customers.InsertKeepsNewestFirst | app/Services/CustomerService.php:17 | inserting into a newest-first list keeps it newest first |
| Customers.SortNewest | app/Services/CustomerService.php:17 | sorting is a permutation |
| Customers.SortIsNewestFirst | app/Services/CustomerService.php:17 | the sorted list is ordered by `created_at`, descending |
| Customers.AllByUser | app/Services/CustomerService.php:24-29 | every customer of the owner and no other, each as often as stored, newest first |
| Customers.ByUser | app/Services/CustomerService.php:14-19 | the total is the owner's customer count; the page is newest first, at most `perPage` long, position k holding customer `(page - 1) * perPage + k` of the owner's newest-first list; the first page is that list's first `min(perPage, total)` |
| Customers.FirstPageStartsWithNewest | tests/Unit/CustomerServiceTest.php:28-35 | the first customer on page one is at least as recent as every customer of the owner |
| Customers.CustomerStore.constructor | app/Models/Customer.php:9-22 | an empty customers table |
| Customers.CustomerStore.FindById | app/Services/CustomerService.php:48-51 | the row with that id, or none exactly when no row has it |
| Customers.CustomerStore.Create | app/Services/CustomerService.php:31-34 | appends one row with the next id, `created_at` set to now, the supplied fillable attributes and null for absent optional ones |
| Customers.CustomerStore.Update | app/Services/CustomerService.php:36-41 | only that row changes, to the row with the supplied attributes filled in, and the returned row is what is stored |
| Customers.CustomerStore.Delete | app/Services/CustomerService.php:43-46 | returns true; the row is gone, so a lookup finds nothing, and the others keep their order |
| Customers.PerPage | app/Http/Controllers/CustomerController.php:26-29 | the page size is the parameter when it is 10, 15, 25, 50 or 100, and 15 otherwise or when absent |
| Customers.OwnedCustomer | app/Http/Controllers/CustomerController.php:65 | an empty table owns nothing; an owned id belongs to a stored row |
| Customers.Index | app/Http/Controllers/CustomerController.php:23-42 | the listing holds only the requester's customers, newest first, counts all of them, uses an allowed page size and the resolved page, and page 1 starts the newest-first list |
| Customers.Store | app/Http/Controllers/CustomerController.php:47-56 | the new customer belongs to the requester whatever the request said, and carries the validated fields |
| Customers.Validated | app/Http/Controllers/CustomerController.php:69 | validated data never carries `user_id` |
| Customers.Update | app/Http/Controllers/CustomerController.php:61-73 | validation comes first; an absent and a foreign customer both give 404 with no change; otherwise only that row takes the validated fields, and no other user's customer changes |
| Customers.Destroy | app/Http/Controllers/CustomerController.php:78-90 | an absent and a foreign customer both give 404 with no change; otherwise exactly that row is removed, and no other user's customer is touched |
| PostOverlay.InsertKeepsLocalIds | tests/Feature/ServiceControllerTest.php:33-50 | adding a post with an unused negative id keeps local ids negative and distinct |
| PostOverlay.RemoveKeepsLocalIds | tests/Feature/ServiceControllerTest.php:97-115 | removing a local post keeps local ids negative and distinct and drops its id |
| PostOverlay.LocalIndex | tests/Feature/ServiceControllerTest.php:52-73 | the position of the local post with that id; none exactly when there is none |
| PostOverlay.Shown | tests/Feature/ServiceControllerTest.php:146-162 | a remote post is listed in its edited version when there is one, under the same id |
| PostOverlay.Visible | tests/Feature/ServiceControllerTest.php:130-162 | every remote post that is not deleted is listed through its edit, and every listed post is such a post; there are as many as remote posts minus deleted ones |
| PostOverlay.NothingDeleted | tests/Feature/ServiceControllerTest.php:130-144 | with no deleted ids nothing is subtracted from the total |
| PostOverlay.EditedKeepPosition | tests/Feature/ServiceControllerTest.php:146-162 | with nothing deleted, every remote post stays at its position, in its edited version when edited, so an edit is never listed twice |
| PostOverlay.Feed | app/Http/Controllers/ServiceController.php:22-32 | the listing holds every local post and every non-deleted remote post through its edit, and nothing else; its size is remote minus deleted plus local |
| PostOverlay.NoDeletedOnAnyPage | tests/Feature/ServiceControllerTest.php:130-144 | no page of the listing holds a post with a deleted id |
| PostOverlay.DeletedPostNotCounted | tests/Feature/ServiceControllerTest.php:130-144 | with two remote posts and the first deleted, the listing's total is 1 |
| PostOverlay.EditedPostListedInPlace | tests/Feature/ServiceControllerTest.php:146-162 | an edited first post is listed first, with the edited title |
| PostOverlay.SessionOverlay.constructor | app/Http/Controllers/ServiceController.php:22-32 | a fresh session has no local, edited or deleted posts |
| PostOverlay.SessionOverlay.Index | app/Http/Controllers/ServiceController.php:22-32 | the page's total is remote minus deleted plus local, and no listed post has a deleted id |
| PostOverlay.SessionOverlay.Store | app/Http/Controllers/ServiceController.php:37-46 | one local post with an unused negative id and the submitted fields is added; edits and deletions are untouched |
| PostOverlay.SessionOverlay.Update | app/Http/Controllers/ServiceController.php:51-61 | a negative id replaces that local post in place; any other id records the edit under that id and leaves local posts alone; redirects to the page parameter |
| PostOverlay.SessionOverlay.Destroy | app/Http/Controllers/ServiceController.php:66-75 | a negative id removes only that local post and keeps the rest in order; any other id is added to the deleted ids; redirects to the page parameter |
| PostOverlay.StoreOnFreshSession | tests/Feature/ServiceControllerTest.php:33-50 | storing on a fresh session leaves exactly one local post, with a negative id and the submitted title |
| PostOverlay.DeleteFirstLocalPost | tests/Feature/ServiceControllerTest.php:97-115 | deleting -1 from local posts -1 and -2 leaves only -2 |
| WordEditor.Resized | resources/js/pages/algorithms/index.tsx:36 | a resize has exactly the new count of entries, keeps those below it, and fills new slots with "" |
| WordEditor.ResizeBack | resources/js/pages/algorithms/index.tsx:36 | growing then shrinking back restores the list; shrinking then growing back empties the dropped slots |
| WordEditor.NonBlank | resources/js/pages/algorithms/index.tsx:62 | exactly the entries that are not blank after JavaScript's `trim`, untrimmed |
| WordEditor.NonBlankConcat | resources/js/pages/algorithms/index.tsx:62 | the filter keeps order: it distributes over concatenation |
| WordEditor.NonBlankIdempotent | resources/js/pages/algorithms/index.tsx:62 | filtering twice equals filtering once |
| WordEditor.SubmittedWordsPassServer | resources/js/pages/algorithms/index.tsx:60-68 | two or more submitted words without a NUL character pass the detect endpoint's rules |
| WordEditor.NulWordPassesClientOnly | app/Http/Controllers/AlgorithmController.php:32 | a word holding only NUL passes the page's filter but fails the server's `required` |
| WordEditor.PalindromeCount | resources/js/pages/algorithms/index.tsx:70 | the number of words marked true, never more than the number of results |
| WordEditor.PalindromeCountOfDetection | resources/js/pages/algorithms/index.tsx:70 | on detection results, the count is the number of distinct palindromes among the submitted words |
| WordEditor.WordListEditor.constructor | resources/js/pages/algorithms/index.tsx:28-29 | the editor starts with two empty inputs |
| WordEditor.WordListEditor.HandleWordCountChange | resources/js/pages/algorithms/index.tsx:31-38 | a count below 2 or above 20 changes nothing; otherwise the list is resized to it; the list length always equals the count, between 2 and 20 |
| WordEditor.WordListEditor.HandleCountInput | resources/js/pages/algorithms/index.tsx:119 | clearing the number field or typing 0 brings the list back to its first two entries; a typed count of 2 to 20 resizes the list to it; any other number changes nothing; the list length always equals the count |
| WordEditor.WordListEditor.HandleWordChange | resources/js/pages/algorithms/index.tsx:40-44 | only entry i changes, to the new value |
| WordEditor.WordListEditor.HandleAddWord | resources/js/pages/algorithms/index.tsx:46-50 | below 20 words one empty entry is appended; at 20 nothing changes |
| WordEditor.WordListEditor.HandleRemoveWord | resources/js/pages/algorithms/index.tsx:52-58 | above 2 words exactly entry i is removed and the rest keep their order; at 2 nothing changes |
| WordEditor.WordListEditor.Submit | resources/js/pages/algorithms/index.tsx:60-68 | the non-blank words are sent untrimmed and in order when there are at least two, and nothing is sent otherwise |

## Left out

- The HTTP client to the remote posts API is not modelled; the remote list is a parameter. The same goes for the sync calls to that API: remote updates and deletes are taken to succeed.
- The session overlay's service (JsonPlaceholderService with the overlay methods) is not part of this model. Its behaviour is modelled only as far as tests/Feature/ServiceControllerTest.php fixes it. The rest is parameters:
  - the id given to a new local post: any unused negative id;
  - where a new local post goes among the others;
  - where local posts sit in the listing;
  - the page size.
- PostOverlay.SessionOverlay.Update: on a negative id no local post holds, the model changes nothing. The source's behaviour there is not visible.
- PostOverlay.SessionOverlay.Index: takes a page number of at least 1. What the service does with `(int) page` below 1 is not visible.
- A remote update leaves `deleted_posts` alone, and a remote delete leaves `edited_posts` alone. The tests fix neither.
- `Hash::make` is salted and nondeterministic. It is the table's hash function applied to a salt parameter. The encrypted casts on customer fields are a foreign primitive and are left out, because they are invisible at this level.
- Database concerns are left out:
  - query execution and `updated_at`;
  - the unique indexes (the validators' uniqueness rules are modelled);
  - the cascade delete from users to customers;
  - the seeders.
- Customers.SortNewest: customers with equal `created_at` keep table order here. The database leaves their order unspecified.
- Auth.FirstMatch: `first()` without ORDER BY is taken as table order.
- The `email` and `url` rules and the password rules of the PasswordValidationRules trait are opaque predicates. PasswordValidationRules is not part of this model.
- StoreCustomerRequest is not part of this model. Customers.Store takes already validated fields, with name and RFC present because those columns are NOT NULL.
- AuthForms.ClientRfcAgreesWithServer: both directions are stated for ASCII text only, because the server rule works on UTF-8 bytes and the browser check on characters; beyond ASCII, AuthForms.ClientRfcOnServer states which browser-valid RFCs the server refuses.
- Rfc.ServerRuleShape: stated for ASCII text only; a server match built from other bytes of the class (for example "Ã" in the customer-update class) is described only through Rfc.MisEncodedClassLetters.
- The modelled validators keep the rfc rule as written, on bytes; the rule with the `u` modifier (Rfc.UnicodeRfcRule) is stated beside it for the finding below and is not what the modelled server runs.
- Invalid UTF-8 is left out: request strings are taken as sequences of Unicode characters.
- The TrimStrings and ConvertEmptyStringsToNull middleware run before validation and are not modelled:
  - trimming means a trailing line feed never reaches the RFC rule, so the line-feed lemmas describe the rule on its own;
  - ConvertEmptyStringsToNull turns an empty nullable field into null; the validator's own skip of a blank nullable value is modelled in Requests.UpdateCustomerErrors.
- The browser's own constraint validation is not modelled: the `required` attributes and the email input's `type="email"` can block a submission that `handleSubmit` lets through. Whether `preventDefault` on the wrapping element stops the Form component's own post depends on library code that is not part of this model; AuthForms.RegisterSubmit and AuthForms.ResetSubmit describe `handleSubmit` alone.
- JavaScript `toUpperCase` beyond ASCII letters and "ñ" (for example "ß" or accented letters) is left out.
- PHP turns a numeric-string word such as "121" into an integer array key in `detectPalindromes`. This is left out.
- Customers.ByUser: the default page size of 15 is not modelled; every caller passes one.
- PHP's loose `in_array` comparison for `per_page` is left out: the parameter is an already parsed integer.
- Stale-state behaviour of React closures is left out. So are DOM class toggling, alerts, rendering, routing, flash messages and concurrent requests on one session.

## Findings

| source | as written | input that shows it | evidently intended | confidence | as-written member | corrected member |
|---|---|---|---|---|---|---|
| app/Http/Requests/Auth/RegisterRequest.php:38 | the pattern (repeated in CreateNewUser.php and ResetPasswordRequest.php) has no `u` modifier, so `preg_match` reads "Ñ" as two bytes and `{3,4}` counts them as two letters | "MUÑO800101AB1": the browser accepts it (resources/js/pages/auth/register.tsx:41), the server's rule refuses it | a character-level match, as the browser performs, i.e. the pattern with the `u` modifier | not executed | AuthForms.EnyeSurnameRejected | AuthForms.ClientAgreesWithUnicodeRule |
