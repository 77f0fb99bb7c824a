/** The login screen: the credential checks, the login decision and registration. */
module Login {
  import opened JavaText
  import opened Database

  const EmptyCredentialsMessage := "Username or password cannot be empty."
  const ShortPasswordMessage := "Password must be at least 8 characters long."
  const LoginSuccessMessage := "Login successful."
  const WrongPasswordMessage := "Invalid password. Please try again."
  const UnknownUserMessage := "User does not exist. Please create an account."
  const LoginErrorMessage := "Error while logging in."
  const UserExistsMessage := "User already exists. Please login."
  const RegisteredMessage := "Registration successful. User created."
  const CreateErrorMessage := "Error while creating user."

  /** The shortest password either handler accepts. */
  const MinPasswordLength := 8

  // ---------------------------------------------------------------- the checks

  /** What is wrong with the typed credentials, checked in the handlers' order: emptiness
      first, then the password length. Both handlers make this check before anything
      else. */
  function CredentialProblem(username: string, password: string): (r: Option<string>)
    ensures r == Some(EmptyCredentialsMessage) <==> username == [] || password == []
    ensures r == Some(ShortPasswordMessage) <==>
              username != [] && password != [] && |password| < MinPasswordLength
    ensures r.None? <==> username != [] && |password| >= MinPasswordLength
  {
    if username == [] || password == [] then Some(EmptyCredentialsMessage)
    else if |password| < MinPasswordLength then Some(ShortPasswordMessage)
    else None
  }

  // ---------------------------------------------------------------- logging in

  datatype LoginOutcome =
    | Invalid(message: string)
    | UnknownUser
    | WrongPassword
    | Failed
    | SignedIn(user: User)

  /** What the lookups of a login come to in driver state `st`: userExists,
      getPasswordForUser and getUserByUsername in turn. Any failure among them, an
      absent user from the last one included, is caught by the one handler. */
  function LookupIn(st: DriverState, failing: map<Call, string>, username: string, password: string): (r: LoginOutcome)
    ensures !r.Invalid?
    ensures r.SignedIn? ==> r.user in st.pending.users && r.user.username == username && r.user.password == password
  {
    if StoreRefusal(st, failing, Call.UserExists, UsersTable).Some? then Failed
    else if !HasUser(st.pending.users, username) then UnknownUser
    else if StoreRefusal(st, failing, Call.GetPasswordForUser, UsersTable).Some? then Failed
    else if PasswordOf(st.pending.users, username) != Some(password) then WrongPassword
    else if StoreRefusal(st, failing, Call.GetUserByUsername, UsersTable).Some? then Failed
    else
      match FindUser(st.pending.users, username)
      case None => Failed
      case Some(u) => SignedIn(u)
  }

  /** What a login comes to: the credential check, then the lookups. */
  function LoginIn(st: DriverState, failing: map<Call, string>, username: string, password: string): (r: LoginOutcome)
    ensures r.Invalid? <==> CredentialProblem(username, password).Some?
    ensures r.Invalid? ==> r.message == CredentialProblem(username, password).value
  {
    match CredentialProblem(username, password)
    case Some(m) => Invalid(m)
    case None => LookupIn(st, failing, username, password)
  }

  /** The three lookups of a login are served in driver state `st`. */
  predicate LookupsServed(st: DriverState, failing: map<Call, string>)
  {
    st.conn == Opened && UsersTable in st.pending.tables &&
    Call.UserExists !in failing && Call.GetPasswordForUser !in failing && Call.GetUserByUsername !in failing
  }

  /** With the store answering, well-formed credentials sign in exactly when the stored
      password of that username equals the typed one; an unknown username and a wrong
      password are told apart. */
  lemma LoginSucceedsIff(st: DriverState, failing: map<Call, string>, username: string, password: string)
    requires LookupsServed(st, failing) && CredentialProblem(username, password).None?
    ensures LoginIn(st, failing, username, password).SignedIn? <==>
              PasswordOf(st.pending.users, username) == Some(password)
    ensures LoginIn(st, failing, username, password) == UnknownUser <==> !HasUser(st.pending.users, username)
    ensures LoginIn(st, failing, username, password) == WrongPassword <==>
              HasUser(st.pending.users, username) && PasswordOf(st.pending.users, username) != Some(password)
    ensures LoginIn(st, failing, username, password).SignedIn? ==>
              LoginIn(st, failing, username, password).user == FindUser(st.pending.users, username).value
  {
  }

  // ---------------------------------------------------------------- registering

  datatype Registration =
    | Rejected(message: string)
    | Taken
    | Registered
    | StoreFailed(failure: Failure)

  /** What a registration comes to in driver state `st`: the credential check, then
      userExists, then addUser. */
  function RegisterIn(st: DriverState, failing: map<Call, string>, username: string, password: string): (r: Registration)
    ensures r.Rejected? <==> CredentialProblem(username, password).Some?
    ensures r.Rejected? ==> Some(r.message) == CredentialProblem(username, password)
    ensures r.StoreFailed? ==> Some(r.failure) == StoreRefusal(st, failing, Call.UserExists, UsersTable) ||
                               Some(r.failure) == StoreRefusal(st, failing, Call.AddUser, UsersTable)
    ensures r.Registered? ==> !HasUser(st.pending.users, username)
    ensures r.Taken? ==> HasUser(st.pending.users, username)
    ensures CredentialProblem(username, password).None? &&
            StoreRefusal(st, failing, Call.UserExists, UsersTable).None? ==>
              (r.Taken? <==> HasUser(st.pending.users, username))
    ensures CredentialProblem(username, password).None? &&
            StoreRefusal(st, failing, Call.UserExists, UsersTable).None? &&
            StoreRefusal(st, failing, Call.AddUser, UsersTable).None? &&
            !HasUser(st.pending.users, username) ==>
              r.Registered?
  {
    match CredentialProblem(username, password)
    case Some(m) => Rejected(m)
    case None =>
      match StoreRefusal(st, failing, Call.UserExists, UsersTable)
      case Some(f) => StoreFailed(f)
      case None =>
        if HasUser(st.pending.users, username) then Taken
        else
          match StoreRefusal(st, failing, Call.AddUser, UsersTable)
          case Some(f) => StoreFailed(f)
          case None => Registered
  }

  /** No two users share a username. */
  predicate UniqueUsernames(users: seq<User>)
  {
    forall i, j :: 0 <= i < j < |users| ==> users[i].username != users[j].username
  }

  /** Looking a name up after appending a user: earlier users come first. */
  lemma {:induction false} FindUserAppend(users: seq<User>, u: User, username: string)
    ensures FindUser(users + [u], username) ==
              if HasUser(users, username) then FindUser(users, username)
              else if u.username == username then Some(u) else None
  {
    if users != [] {
      assert (users + [u])[1..] == users[1..] + [u];
      FindUserAppend(users[1..], u, username);
    } else {
      assert ([] + [u])[1..] == [];
    }
  }

  /** Registration adds exactly the new user: the name now finds that user with the
      typed password, every other name finds what it found before, and usernames stay
      unique. */
  lemma RegistrationAddsOnlyThatUser(s: Store, username: string, password: string, other: string)
    requires !HasUser(s.users, username) && other != username
    ensures FindUser(InsertUser(s, username, password).users, username) == Some(User(s.lastUserId + 1, username, password))
    ensures FindUser(InsertUser(s, username, password).users, other) == FindUser(s.users, other)
    ensures UniqueUsernames(s.users) ==> UniqueUsernames(InsertUser(s, username, password).users)
  {
    var u := User(s.lastUserId + 1, username, password);
    FindUserAppend(s.users, u, username);
    FindUserAppend(s.users, u, other);
  }

  /** Once registration went through, logging in with the same credentials signs that
      user in, as long as the store answers the lookups. */
  lemma LoginAfterRegistration(st: DriverState, failing: map<Call, string>, username: string, password: string)
    requires RegisterIn(st, failing, username, password).Registered?
    requires LookupsServed(st, failing)
    ensures var after := st.(pending := InsertUser(st.pending, username, password));
            LoginIn(after, failing, username, password) == SignedIn(User(st.pending.lastUserId + 1, username, password))
  {
    var u := User(st.pending.lastUserId + 1, username, password);
    FindUserAppend(st.pending.users, u, username);
  }

  // ---------------------------------------------------------------- the controller

  /** LoginController: the driver, the message label and the user handed on to the
      course search screen. */
  class LoginController {
    const db: DatabaseDriver
    var message: string
    var signedIn: Option<User>

    constructor (db: DatabaseDriver)
      ensures this.db == db && message == "" && signedIn.None?
    {
      this.db := db;
      message := "";
      signedIn := None;
    }

    /** The lookups of handleLogin after the credential check; every failure ends in
        the one catch-all handler. */
    method Lookup(username: string, password: string)
      requires db.Valid() && CredentialProblem(username, password).None?
      modifies this, db
      ensures db.Valid() && db.State() == old(db.State())
      ensures match LookupIn(old(db.State()), db.failing, username, password)
              case Invalid(_) => true
              case UnknownUser => message == UnknownUserMessage && signedIn == old(signedIn)
              case WrongPassword => message == WrongPasswordMessage && signedIn == old(signedIn)
              case Failed => message == LoginErrorMessage && signedIn == old(signedIn)
              case SignedIn(u) => message == LoginSuccessMessage && signedIn == Some(u)
    {
      var known := db.UserExists(username);
      if known.Err? {
        message := LoginErrorMessage;
        return;
      }
      if !known.value {
        message := UnknownUserMessage;
        return;
      }
      var stored := db.GetPasswordForUser(username);
      if stored.Err? {
        message := LoginErrorMessage;
        return;
      }
      if stored.value != Some(password) {
        message := WrongPasswordMessage;
        return;
      }
      message := LoginSuccessMessage;
      var user := db.GetUserByUsername(username);
      if user.Err? || user.value.None? {
        message := LoginErrorMessage;
        return;
      }
      signedIn := user.value;
    }

    /** handleLogin. Bad credentials are refused before the store is asked anything;
        otherwise only lookups are made, and the store is left as it was. */
    method HandleLogin(username: string, password: string)
      requires db.Valid()
      modifies this, db
      ensures db.Valid() && db.State() == old(db.State())
      ensures CredentialProblem(username, password).Some? ==> db.log == old(db.log)
      ensures match LoginIn(old(db.State()), db.failing, username, password)
              case Invalid(m) => message == m && signedIn == old(signedIn)
              case UnknownUser => message == UnknownUserMessage && signedIn == old(signedIn)
              case WrongPassword => message == WrongPasswordMessage && signedIn == old(signedIn)
              case Failed => message == LoginErrorMessage && signedIn == old(signedIn)
              case SignedIn(u) => message == LoginSuccessMessage && signedIn == Some(u)
    {
      var problem := CredentialProblem(username, password);
      if problem.Some? {
        message := problem.value;
        return;
      }
      Lookup(username, password);
    }

    /** The catch block of handleCreateUser: a rollback is attempted; its own
        SQLException is caught, but an IllegalStateException from it is not. */
    method Recover() returns (escaped: Option<Failure>)
      requires db.Valid()
      modifies this, db
      ensures db.Valid() && db.log == old(db.log) + [Call.Rollback] && signedIn == old(signedIn)
      ensures old(db.conn) != Opened ==>
                escaped == Some(IllegalState(NotOpened)) && message == old(message) && db.State() == old(db.State())
      ensures old(db.conn) == Opened ==>
                escaped.None? && message == CreateErrorMessage &&
                db.State() == old(db.State()).(pending := if Call.Rollback in db.failing then old(db.pending)
                                                         else old(db.committed))
    {
      var rolled := db.Rollback();
      if rolled.Err? && rolled.failure.IllegalState? {
        return Some(rolled.failure);
      }
      message := CreateErrorMessage;
      escaped := None;
    }

    /** What follows a store failure `f` in handleCreateUser: only an SQLException is
        caught. */
    method CreateFailed(f: Failure) returns (escaped: Option<Failure>)
      requires db.Valid()
      modifies this, db
      ensures db.Valid() && signedIn == old(signedIn)
      ensures !f.SqlError? ==>
                escaped == Some(f) && message == old(message) && db.log == old(db.log) && db.State() == old(db.State())
      ensures f.SqlError? && old(db.conn) != Opened ==>
                escaped == Some(IllegalState(NotOpened)) && message == old(message) &&
                db.log == old(db.log) + [Call.Rollback] && db.State() == old(db.State())
      ensures f.SqlError? && old(db.conn) == Opened ==>
                escaped.None? && message == CreateErrorMessage && db.log == old(db.log) + [Call.Rollback] &&
                db.State() == old(db.State()).(pending := if Call.Rollback in db.failing then old(db.pending)
                                                         else old(db.committed))
    {
      if !f.SqlError? {
        return Some(f);
      }
      escaped := Recover();
    }

    /** handleCreateUser. Bad credentials touch nothing; an existing username changes
        nothing; a new one is inserted and nothing else, but never committed here; a
        store failure rolls back everything uncommitted, earlier registrations
        included. */
    method HandleCreateUser(username: string, password: string) returns (escaped: Option<Failure>)
      requires db.Valid()
      modifies this, db
      ensures db.Valid() && signedIn == old(signedIn)
      ensures db.committed == old(db.committed) && db.conn == old(db.conn)
      ensures match RegisterIn(old(db.State()), db.failing, username, password)
              case Rejected(m) =>
                message == m && escaped.None? && db.log == old(db.log) && db.State() == old(db.State())
              case Taken =>
                message == UserExistsMessage && escaped.None? &&
                db.log == old(db.log) + [Call.UserExists] && db.State() == old(db.State())
              case Registered =>
                message == RegisteredMessage && escaped.None? &&
                db.log == old(db.log) + [Call.UserExists, Call.AddUser] &&
                db.State() == old(db.State()).(pending := InsertUser(old(db.pending), username, password))
              case StoreFailed(f) =>
                (!f.SqlError? ==> escaped == Some(f) && message == old(message) && db.State() == old(db.State())) &&
                (f.SqlError? && old(db.conn) != Opened ==>
                   escaped == Some(IllegalState(NotOpened)) && message == old(message) && db.State() == old(db.State())) &&
                (f.SqlError? && old(db.conn) == Opened ==>
                   escaped.None? && message == CreateErrorMessage &&
                   db.pending == (if Call.Rollback in db.failing then old(db.pending) else old(db.committed)))
    {
      var problem := CredentialProblem(username, password);
      if problem.Some? {
        message := problem.value;
        return None;
      }
      var known := db.UserExists(username);
      if known.Err? {
        escaped := CreateFailed(known.failure);
        return;
      }
      if known.value {
        message := UserExistsMessage;
        return None;
      }
      var added := db.AddUser(username, password);
      if added.Err? {
        escaped := CreateFailed(added.failure);
        return;
      }
      message := RegisteredMessage;
      escaped := None;
    }
  }
}
