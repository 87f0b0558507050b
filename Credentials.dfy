/** The credential store of the final version: password and name rules,
    signup (the one operation that changes the store) and login. The
    store stands for the contents of the users file; `hash` stands for
    `hash_password`, a deterministic function the model knows nothing
    else about. */
module Credentials {
  import opened Wrappers
  import opened Text

  /** The value stored under a username: the password digest and the name
      as it was typed. */
  datatype UserRecord = UserRecord(password: string, name: string)

  datatype PasswordError =
    | TooShort  // "Password must be at least 8 characters long"
    | NoNumber  // "Password must contain at least one number"
    | NoSymbol  // "Password must contain at least one symbol"

  datatype SignupError =
    | WeakPassword(reason: PasswordError)
    | IncompleteName  // "Full name must include both first and last name. "
    | UsernameTaken   // "Username already taken"

  predicate HasDigit(password: string) {
    exists i :: 0 <= i < |password| && IsDigit(password[i])
  }

  /** Some character outside `[a-zA-Z0-9]`. */
  predicate HasSymbol(password: string) {
    exists i :: 0 <= i < |password| && !IsAlnum(password[i])
  }

  predicate StrongPassword(password: string) {
    |password| >= 8 && HasDigit(password) && HasSymbol(password)
  }

  /** A first and a last name: a space with a non-blank character somewhere
      before it and somewhere after it. */
  predicate FullName(name: string) {
    exists i, j, k :: 0 <= i < j < k < |name| && !IsSpace(name[i]) && name[j] == ' ' && !IsSpace(name[k])
  }

  /** `validate_password`: length, then a digit (`re.search(r'\d', ...)`),
      then a symbol (`re.search(r'[^a-zA-Z0-9]', ...)`); the first rule
      that fails is reported. */
  function ValidatePassword(password: string): (r: Option<PasswordError>)
    ensures r == Some(TooShort) <==> |password| < 8
    ensures r == Some(NoNumber) <==> |password| >= 8 && !HasDigit(password)
    ensures r == Some(NoSymbol) <==> |password| >= 8 && HasDigit(password) && !HasSymbol(password)
    ensures r == None <==> StrongPassword(password)
  {
    if |password| < 8 then Some(TooShort)
    else if Search(password, IsDigit).None? then Some(NoNumber)
    else if Search(password, c => !IsAlnum(c)).None? then Some(NoSymbol)
    else None
  }

  /** The boundary: eight characters with one digit and one symbol pass,
      seven fail on length whatever they contain. */
  lemma PasswordLengthBoundary()
    ensures ValidatePassword("abcdef1!") == None
    ensures ValidatePassword("abcde1!") == Some(TooShort)
  {
    assert IsDigit("abcdef1!"[6]) && !IsAlnum("abcdef1!"[7]);
  }

  /** Eight letters lack a number; seven letters and a digit lack a symbol. */
  lemma PasswordRuleOrder()
    ensures ValidatePassword("abcdefgh") == Some(NoNumber)
    ensures ValidatePassword("abcdefg1") == Some(NoSymbol)
  {
    assert forall i :: 0 <= i < 8 ==> IsAlnum("abcdefg1"[i]);
    assert IsDigit("abcdefg1"[7]);
  }

  /** `' ' in name.strip()` holds exactly of full names: the stripped
      text starts and ends with non-whitespace, so a space in it has
      non-whitespace on both sides. */
  lemma FullNameIffSpaceInStrip(name: string)
    ensures ' ' in Strip(name) <==> FullName(name)
  {
  }

  /** `validate_name`. */
  function ValidateName(name: string): (ok: bool)
    ensures ok <==> FullName(name)
  {
    FullNameIffSpaceInStrip(name);
    ' ' in Strip(name)
  }

  /** What `signup_user` reports: the password rules, then the name rule,
      then the duplicate check; None is success. */
  function SignupCheck(users: map<string, UserRecord>, username: string, password: string, name: string)
    : (r: Option<SignupError>)
    ensures r == Some(WeakPassword(TooShort)) <==> |password| < 8
    ensures r == Some(WeakPassword(NoNumber)) <==> |password| >= 8 && !HasDigit(password)
    ensures r == Some(WeakPassword(NoSymbol)) <==> |password| >= 8 && HasDigit(password) && !HasSymbol(password)
    ensures r == Some(IncompleteName) <==> StrongPassword(password) && !FullName(name)
    ensures r == Some(UsernameTaken) <==> StrongPassword(password) && FullName(name) && username in users
    ensures r == None <==> StrongPassword(password) && FullName(name) && username !in users
  {
    match ValidatePassword(password)
    case Some(e) => Some(WeakPassword(e))
    case None =>
      if !ValidateName(name) then Some(IncompleteName)
      else if username in users then Some(UsernameTaken)
      else None
  }

  /** What `login_user` returns: the stored name when the user exists and
      the digest of the password matches, None otherwise. */
  function LoginResult(users: map<string, UserRecord>, hash: string -> string, username: string, password: string)
    : (r: Option<string>)
    ensures r.Some? <==> username in users && users[username].password == hash(password)
    ensures r.Some? ==> r.value == users[username].name
  {
    if username in users && users[username].password == hash(password) then Some(users[username].name)
    else None
  }

  /** A successful signup followed by a login with the same credentials
      returns the name given at signup, exactly as it was typed. */
  lemma SignupThenLogin(users: map<string, UserRecord>, hash: string -> string,
                        username: string, password: string, name: string)
    ensures SignupCheck(users, username, password, name) == None ==>
              && username !in users
              && LoginResult(users[username := UserRecord(hash(password), name)], hash, username, password) == Some(name)
  {
  }

  /** A signup changes no other user's login. */
  lemma SignupKeepsOtherLogins(users: map<string, UserRecord>, hash: string -> string,
                               username: string, password: string, name: string,
                               other: string, attempt: string)
    requires other != username
    ensures LoginResult(users[username := UserRecord(hash(password), name)], hash, other, attempt)
            == LoginResult(users, hash, other, attempt)
  {
  }

  /** An unknown username and a wrong password give the same answer, so a
      login attempt does not reveal which accounts exist. */
  lemma LoginDoesNotRevealAccounts(users: map<string, UserRecord>, hash: string -> string,
                                   unknown: string, p1: string, known: string, p2: string)
    requires unknown !in users
    requires known in users && users[known].password != hash(p2)
    ensures LoginResult(users, hash, unknown, p1) == LoginResult(users, hash, known, p2) == None
  {
  }

  /** The store behind `signup_user` and `login_user`. */
  class UserStore {
    const hash: string -> string
    var users: map<string, UserRecord>

    /** `saved` is what `load_user_data` read; a missing file gives `map[]`. */
    constructor (hash: string -> string, saved: map<string, UserRecord>)
      ensures this.hash == hash && users == saved
    {
      this.hash := hash;
      users := saved;
    }

    /** `signup_user`: on the first failing check nothing changes; on
        success exactly one new entry is added. */
    method Signup(username: string, password: string, name: string) returns (error: Option<SignupError>)
      modifies this
      ensures error == SignupCheck(old(users), username, password, name)
      ensures error.Some? ==> users == old(users)
      ensures error.None? ==> username !in old(users)
      ensures error.None? ==> users == old(users)[username := UserRecord(hash(password), name)]
    {
      var weak := ValidatePassword(password);
      if weak.Some? {
        return Some(WeakPassword(weak.value));
      }
      if !ValidateName(name) {
        return Some(IncompleteName);
      }
      if username in users {
        return Some(UsernameTaken);
      }
      users := users[username := UserRecord(hash(password), name)];
      return None;
    }

    /** `login_user`: reads the store and never changes it. */
    method Login(username: string, password: string) returns (name: Option<string>)
      ensures name.Some? <==> username in users && users[username].password == hash(password)
      ensures name.Some? ==> name.value == users[username].name
      ensures name == LoginResult(users, hash, username, password)
    {
      name := LoginResult(users, hash, username, password);
    }
  }

  /** The credentials of the session below. */
  lemma AliceCredentials()
    ensures FullName("Alice Smith")
    ensures |"short1!"| == 7
    ensures StrongPassword("longenough1!")
  {
    assert !IsSpace("Alice Smith"[0]) && "Alice Smith"[5] == ' ' && !IsSpace("Alice Smith"[6]);
    assert IsDigit("longenough1!"[10]) && !IsAlnum("longenough1!"[11]);
  }

  /** A sample session: a short password is
      refused, the first good signup succeeds, a second one with the same
      username is refused, and login greets the user by name. */
  method AliceSession(hash: string -> string) returns (greeting: Option<string>)
    ensures greeting == Some("Alice Smith")
  {
    var store := new UserStore(hash, map[]);
    AliceCredentials();
    var e1 := store.Signup("alice", "short1!", "Alice Smith");
    assert e1 == Some(WeakPassword(TooShort));
    var e2 := store.Signup("alice", "longenough1!", "Alice Smith");
    assert e2 == None;
    var e3 := store.Signup("alice", "longenough1!", "Alice Smith");
    assert e3 == Some(UsernameTaken);
    greeting := store.Login("alice", "longenough1!");
  }
}
