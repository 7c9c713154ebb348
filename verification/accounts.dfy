/** The `User` class: credential validation and the username -> account directory.
    The directory is the class's static map, passed here explicitly as a value. */
module Accounts {
  import opened Wrappers

  // ---------------------------------------------------------------------------
  // The two credential patterns
  // ---------------------------------------------------------------------------

  /** Java's line terminators, which the regex `.` does not match by default. */
  predicate IsLineTerminator(c: char) {
    c == '\n' || c == '\r' || c == '\U{85}' || c == '\U{2028}' || c == '\U{2029}'
  }

  predicate IsAsciiLetter(c: char) {
    'a' <= c <= 'z' || 'A' <= c <= 'Z'
  }

  predicate IsAsciiDigit(c: char) {
    '0' <= c <= '9'
  }

  /** The character classes the two patterns are built from. */
  datatype CharClass =
    | Digit      // [0-9]
    | Letter     // [a-zA-Z]
    | NameChar   // [a-zA-Z0-9_-]
    | Dot        // .

  predicate InClass(k: CharClass, c: char) {
    match k
    case Digit => IsAsciiDigit(c)
    case Letter => IsAsciiLetter(c)
    case NameChar => IsAsciiLetter(c) || IsAsciiDigit(c) || c == '_' || c == '-'
    case Dot => !IsLineTerminator(c)
  }

  /** `^k{lo,hi}$` (or `^k{lo,}$` when `hi` is `None`) matched by `String.matches`,
      which must consume the whole input. */
  predicate RepeatMatches(s: string, k: CharClass, lo: nat, hi: Option<nat>) {
    && lo <= |s|
    && (hi.Some? ==> |s| <= hi.value)
    && forall i :: 0 <= i < |s| ==> InClass(k, s[i])
  }

  /** The lookahead `(?=.*k)` at the start of the input: `.*` runs over
      characters other than line terminators and stops at a character in `k`. */
  predicate LookaheadFinds(s: string, k: CharClass) {
    exists j :: 0 <= j < |s| && InClass(k, s[j]) && forall i :: 0 <= i < j ==> InClass(Dot, s[i])
  }

  /** `isValidUsername`: the pattern `^[a-zA-Z0-9_-]{3,20}$`. */
  predicate IsValidUsername(s: string) {
    RepeatMatches(s, NameChar, 3, Some(20))
  }

  /** `isValidPassword`: the pattern `^(?=.*[0-9])(?=.*[a-zA-Z]).{6,}$`. */
  predicate IsValidPassword(s: string) {
    && LookaheadFinds(s, Digit)
    && LookaheadFinds(s, Letter)
    && RepeatMatches(s, Dot, 6, None)
  }

  /** A username is valid exactly when it has 3 to 20 characters, each an ASCII
      letter, an ASCII digit, `_` or `-`. */
  lemma UsernameCharacterization(s: string)
    ensures IsValidUsername(s) <==>
      && 3 <= |s| <= 20
      && forall i :: 0 <= i < |s| ==> IsAsciiLetter(s[i]) || IsAsciiDigit(s[i]) || s[i] == '_' || s[i] == '-'
  {
  }

  /** A password is valid exactly when it has at least 6 characters, none of them
      a line terminator, at least one an ASCII digit and at least one an ASCII letter.
      The lookaheads add nothing beyond "somewhere in the input" because `.{6,}$`
      already rules out every line terminator. */
  lemma PasswordCharacterization(s: string)
    ensures IsValidPassword(s) <==>
      && 6 <= |s|
      && (forall i :: 0 <= i < |s| ==> !IsLineTerminator(s[i]))
      && (exists i :: 0 <= i < |s| && IsAsciiDigit(s[i]))
      && (exists i :: 0 <= i < |s| && IsAsciiLetter(s[i]))
  {
  }

  /** A single left-to-right pass deciding the username pattern. */
  method ScanUsername(s: string) returns (ok: bool)
    ensures ok <==> IsValidUsername(s)
  {
    if |s| < 3 || 20 < |s| {
      return false;
    }
    var i := 0;
    while i < |s|
      invariant 0 <= i <= |s|
      invariant forall j :: 0 <= j < i ==> InClass(NameChar, s[j])
    {
      if !InClass(NameChar, s[i]) {
        return false;
      }
      i := i + 1;
    }
    return true;
  }

  /** A single left-to-right pass deciding the password pattern: it stops at the
      first line terminator and otherwise records whether a digit and a letter
      have been seen. */
  method ScanPassword(s: string) returns (ok: bool)
    ensures ok <==> IsValidPassword(s)
  {
    PasswordCharacterization(s);
    var sawDigit, sawLetter := false, false;
    var i := 0;
    while i < |s|
      invariant 0 <= i <= |s|
      invariant forall j :: 0 <= j < i ==> !IsLineTerminator(s[j])
      invariant sawDigit <==> exists j :: 0 <= j < i && IsAsciiDigit(s[j])
      invariant sawLetter <==> exists j :: 0 <= j < i && IsAsciiLetter(s[j])
    {
      if IsLineTerminator(s[i]) {
        return false;
      }
      sawDigit := sawDigit || IsAsciiDigit(s[i]);
      sawLetter := sawLetter || IsAsciiLetter(s[i]);
      i := i + 1;
    }
    ok := sawDigit && sawLetter && 6 <= |s|;
  }

  /** The sample inputs for both patterns. */
  lemma CredentialExamples()
    ensures !IsValidUsername("ab")
    ensures !IsValidUsername("user!")
    ensures IsValidUsername("user_1-2")
    ensures IsValidPassword("abc123")
    ensures !IsValidPassword("abcdef")
    ensures !IsValidPassword("a1")
    ensures !IsValidPassword("abc12\n")
  {
    assert !InClass(NameChar, "user!"[4]);
    assert InClass(Letter, "abc123"[0]);
    assert InClass(Digit, "abc123"[3]);
    PasswordCharacterization("abcdef");
    assert IsLineTerminator("abc12\n"[5]);
  }

  // ---------------------------------------------------------------------------
  // The account directory
  // ---------------------------------------------------------------------------

  datatype Account = Account(username: string, password: string)

  /** The static `users` map: username -> account. */
  type Directory = map<string, Account>

  /** The two `IllegalArgumentException`s the constructor can throw. */
  datatype RegisterError = InvalidUsername | InvalidPassword

  /** What `new User(username, password)` produces, and the directory afterwards. */
  datatype Registration = Registration(outcome: Result<Account, RegisterError>, directory: Directory)

  /** Every account is filed under its own username and carries valid credentials:
      the only way into the directory is a successful registration. */
  predicate WellFormed(d: Directory) {
    forall u :: u in d ==> d[u].username == u && IsValidUsername(u) && IsValidPassword(d[u].password)
  }

  /** `getUserByUsername`: `null` for an unknown name. */
  function GetUser(d: Directory, username: string): (r: Option<Account>)
    ensures r.Some? <==> username in d
    ensures r.Some? ==> r.value == d[username]
  {
    if username in d then Some(d[username]) else None
  }

  /** `checkPassword`: exact, case-sensitive string equality. */
  function CheckPassword(a: Account, password: string): (r: bool)
    ensures r <==> a.password == password
  {
    a.password == password
  }

  /** The `User` constructor: the username is checked first, then the password;
      only then is the account stored, replacing any account of the same name. */
  function Register(d: Directory, username: string, password: string): (r: Registration)
    ensures !IsValidUsername(username) ==> r.outcome == Failure(InvalidUsername)
    ensures IsValidUsername(username) && !IsValidPassword(password) ==> r.outcome == Failure(InvalidPassword)
    ensures r.outcome.Success? <==> IsValidUsername(username) && IsValidPassword(password)
    ensures r.outcome.Failure? ==> r.directory == d
    ensures r.outcome.Success? ==>
      && r.outcome.value == Account(username, password)
      && GetUser(r.directory, username) == Some(r.outcome.value)
    ensures forall u :: u != username ==> GetUser(r.directory, u) == GetUser(d, u)
    ensures WellFormed(d) ==> WellFormed(r.directory)
  {
    if !IsValidUsername(username) then
      Registration(Failure(InvalidUsername), d)
    else if !IsValidPassword(password) then
      Registration(Failure(InvalidPassword), d)
    else
      var a := Account(username, password);
      Registration(Success(a), d[username := a])
  }

  /** The login check in `main`: `user != null && user.checkPassword(password)`. */
  function Authenticate(d: Directory, username: string, password: string): (r: Option<Account>)
    ensures r.Some? <==> username in d && d[username].password == password
    ensures r.Some? ==> r.value == d[username]
  {
    match GetUser(d, username)
    case None => None
    case Some(a) => if CheckPassword(a, password) then Some(a) else None
  }

  /** After a successful registration the new credentials log in, any other
      password for that name is refused, and every other login is as before. */
  lemma RegisterThenAuthenticate(d: Directory, username: string, password: string, other: string)
    requires Register(d, username, password).outcome.Success?
    ensures Authenticate(Register(d, username, password).directory, username, password) == Some(Account(username, password))
    ensures other != password ==> Authenticate(Register(d, username, password).directory, username, other).None?
    ensures forall u, p :: u != username ==>
      Authenticate(Register(d, username, password).directory, u, p) == Authenticate(d, u, p)
  {
  }

  /** Registering a name twice keeps only the second account: the first
      password stops working (last write wins). */
  lemma ReRegistrationReplaces(d: Directory, username: string, first: string, second: string)
    requires IsValidUsername(username) && IsValidPassword(first) && IsValidPassword(second)
    requires first != second
    ensures var d' := Register(Register(d, username, first).directory, username, second).directory;
      && Authenticate(d', username, first).None?
      && Authenticate(d', username, second) == Some(Account(username, second))
  {
  }

  /** A failed registration never disturbs an existing login. */
  lemma FailedRegistrationKeepsLogins(d: Directory, username: string, password: string)
    requires !(IsValidUsername(username) && IsValidPassword(password))
    ensures forall u, p :: Authenticate(Register(d, username, password).directory, u, p) == Authenticate(d, u, p)
  {
  }

  /** The login scenario: the account `alice` logs in with the registered password only. */
  lemma AliceScenario()
    ensures var r := Register(map[], "alice", "secret1");
      && r.outcome.Success?
      && Authenticate(r.directory, "alice", "secret1").Some?
      && Authenticate(r.directory, "alice", "wrong").None?
  {
    assert InClass(Letter, "secret1"[0]);
    assert InClass(Digit, "secret1"[6]);
  }
}
