// The input checks of the user controller: the email and phone predicates and the two
// validation cascades, the one createUser runs and the one updateUser runs.
module Validation {
  import opened Wrappers

  /** The characters matched by `\s` in a JavaScript regular expression. */
  predicate IsWhitespace(c: char) {
    || c == '\t' || c == '\n' || c == '\U{000B}' || c == '\U{000C}' || c == '\r' || c == ' '
    || c == '\U{00A0}' || c == '\U{1680}' || ('\U{2000}' <= c <= '\U{200A}')
    || c == '\U{2028}' || c == '\U{2029}' || c == '\U{202F}' || c == '\U{205F}'
    || c == '\U{3000}' || c == '\U{FEFF}'
  }

  /** The character class `[^\s@]`. */
  predicate IsAtomChar(c: char) {
    c != '@' && !IsWhitespace(c)
  }

  /** A match of `[^\s@]+`. */
  ghost predicate IsAtom(t: string) {
    |t| > 0 && forall i :: 0 <= i < |t| ==> IsAtomChar(t[i])
  }

  /** The language of the regular expression `^[^\s@]+@[^\s@]+\.[^\s@]+$`. */
  ghost predicate MatchesEmailPattern(s: string) {
    exists local: string, host: string, tld: string ::
      IsAtom(local) && IsAtom(host) && IsAtom(tld) && s == local + "@" + host + "." + tld
  }

  /**
   * isValidEmail, stated as a direct check: no whitespace anywhere, exactly one `@`,
   * which is not the first character, and a `.` after it with at least one character
   * on each side.
   */
  predicate IsValidEmail(email: string) {
    && (forall i :: 0 <= i < |email| ==> !IsWhitespace(email[i]))
    && exists at :: 0 < at < |email| && email[at] == '@'
         && (forall i :: 0 <= i < |email| && i != at ==> email[i] != '@')
         && exists dot :: at + 1 < dot < |email| - 1 && email[dot] == '.'
  }

  /** The direct check accepts exactly the strings the regular expression matches. */
  lemma EmailCheckMatchesPattern(email: string)
    ensures IsValidEmail(email) <==> MatchesEmailPattern(email)
  {
    if IsValidEmail(email) {
      var at :| 0 < at < |email| && email[at] == '@'
        && (forall i :: 0 <= i < |email| && i != at ==> email[i] != '@')
        && exists dot :: at + 1 < dot < |email| - 1 && email[dot] == '.';
      var dot :| at + 1 < dot < |email| - 1 && email[dot] == '.';
      var local, host, tld := email[..at], email[at + 1..dot], email[dot + 1..];
      assert email == local + "@" + host + "." + tld;
      assert IsAtom(local) && IsAtom(host) && IsAtom(tld) by {
        forall i | 0 <= i < |host| ensures IsAtomChar(host[i]) {
          assert host[i] == email[at + 1 + i];
        }
        forall i | 0 <= i < |tld| ensures IsAtomChar(tld[i]) {
          assert tld[i] == email[dot + 1 + i];
        }
      }
    }
    if MatchesEmailPattern(email) {
      var local: string, host: string, tld: string :|
        IsAtom(local) && IsAtom(host) && IsAtom(tld) && email == local + "@" + host + "." + tld;
      var at, dot := |local|, |local| + 1 + |host|;
      forall i | 0 <= i < |email|
        ensures !IsWhitespace(email[i])
        ensures i != at && i != dot ==> IsAtomChar(email[i])
      {
        if i < at {
          assert email[i] == local[i];
        } else if at < i < dot {
          assert email[i] == host[i - at - 1];
        } else if dot < i {
          assert email[i] == tld[i - dot - 1];
        }
      }
      assert email[at] == '@' && email[dot] == '.';
      assert forall i :: 0 <= i < |email| && i != at ==> email[i] != '@' by {
        forall i | 0 <= i < |email| && i != at ensures email[i] != '@' {
          if i != dot { assert IsAtomChar(email[i]); }
        }
      }
    }
  }

  /** isValidPhone, for a phone that is present: at least seven characters. */
  predicate IsValidPhone(phone: string): (r: bool)
    ensures r <==> 7 <= |phone|
    ensures r ==> phone != []
  {
    |phone| >= 7
  }

  /** The six fields createUser and updateUser read from the request body. */
  datatype RequestBody = RequestBody(
    name: Option<string>,
    email: Option<string>,
    phone: Option<string>,
    address: Option<string>,
    country: Option<string>,
    password: Option<string>)

  /** JavaScript truthiness of a string field: present and not the empty string. */
  predicate Truthy(field: Option<string>) {
    field.Some? && field.value != ""
  }

  /** The rule behind each 400 response; the tag stands for the message sent. */
  datatype ValidationError =
    | MissingRequired   // "Name, email, and password are required."
    | InvalidEmail      // "Invalid email format."
    | InvalidPhone      // "Invalid phone number format."
    | ShortPassword     // "Password must be at least 8 characters long."
    | ShortNewPassword  // "New password must be at least 8 characters long."

  /** The position of a rule in the order the handlers check them. */
  function Rank(rule: ValidationError): nat {
    match rule
    case MissingRequired => 0
    case InvalidEmail => 1
    case InvalidPhone => 2
    case ShortPassword => 3
    case ShortNewPassword => 3
  }

  /** Whether the body breaks one rule of createUser, taken on its own. */
  predicate BreaksCreateRule(body: RequestBody, rule: ValidationError) {
    match rule
    case MissingRequired => !(Truthy(body.name) && Truthy(body.email) && Truthy(body.password))
    case InvalidEmail => Truthy(body.email) && !IsValidEmail(body.email.value)
    case InvalidPhone => Truthy(body.phone) && !IsValidPhone(body.phone.value)
    case ShortPassword => Truthy(body.password) && |body.password.value| < 8
    case ShortNewPassword => false
  }

  /** Whether the body breaks one rule of updateUser, taken on its own. */
  predicate BreaksUpdateRule(body: RequestBody, rule: ValidationError) {
    match rule
    case MissingRequired => false
    case InvalidEmail => Truthy(body.email) && !IsValidEmail(body.email.value)
    case InvalidPhone => Truthy(body.phone) && !IsValidPhone(body.phone.value)
    case ShortPassword => false
    case ShortNewPassword => Truthy(body.password) && |body.password.value| < 8
  }

  /** The cascade of createUser: the first rule broken, in check order, or None. */
  function ValidateCreate(body: RequestBody): (r: Option<ValidationError>)
    ensures r.None? <==> forall rule :: !BreaksCreateRule(body, rule)
    ensures r.Some? ==> BreaksCreateRule(body, r.value)
    ensures r.Some? ==> forall rule :: Rank(rule) < Rank(r.value) ==> !BreaksCreateRule(body, rule)
  {
    if !(Truthy(body.name) && Truthy(body.email) && Truthy(body.password)) then
      assert BreaksCreateRule(body, MissingRequired); Some(MissingRequired)
    else if !IsValidEmail(body.email.value) then
      assert BreaksCreateRule(body, InvalidEmail); Some(InvalidEmail)
    else if Truthy(body.phone) && !IsValidPhone(body.phone.value) then
      assert BreaksCreateRule(body, InvalidPhone); Some(InvalidPhone)
    else if |body.password.value| < 8 then
      assert BreaksCreateRule(body, ShortPassword); Some(ShortPassword)
    else None
  }

  /** The cascade of updateUser: only truthy fields are checked; first broken rule or None. */
  function ValidateUpdate(body: RequestBody): (r: Option<ValidationError>)
    ensures r.None? <==> forall rule :: !BreaksUpdateRule(body, rule)
    ensures r.Some? ==> BreaksUpdateRule(body, r.value)
    ensures r.Some? ==> forall rule :: Rank(rule) < Rank(r.value) ==> !BreaksUpdateRule(body, rule)
  {
    if Truthy(body.email) && !IsValidEmail(body.email.value) then
      assert BreaksUpdateRule(body, InvalidEmail); Some(InvalidEmail)
    else if Truthy(body.phone) && !IsValidPhone(body.phone.value) then
      assert BreaksUpdateRule(body, InvalidPhone); Some(InvalidPhone)
    else if Truthy(body.password) && |body.password.value| < 8 then
      assert BreaksUpdateRule(body, ShortNewPassword); Some(ShortNewPassword)
    else None
  }
}
