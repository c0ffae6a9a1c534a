/**
 * Registration, login and logout (app/auth/actions.ts) over a user table keyed by email. The
 * password hash (bcrypt) is a pair of abstract functions, the signed session cookie is the field
 * `session` holding the user id it carries, and the point at which an awaited call throws is a
 * parameter.
 */
module AuthActions {
  import opened Wrappers

  datatype User = User(id: string, name: string, email: string, passwordHash: string)

  /** `bcrypt.hash(password, salt)` and `bcrypt.compare(password, hash)`. */
  datatype Hasher = Hasher(hash: (string, string) -> string, compare: (string, string) -> bool)

  /** A hash made from a password is accepted for that password. */
  ghost predicate Lawful(h: Hasher)
  {
    forall password, salt :: h.compare(password, h.hash(password, salt))
  }

  /** What a form action returns: a redirect, or `{ error }` for the form. */
  datatype Outcome = Redirect(path: string) | FormError(error: string)

  /** Where `register` throws, if it does. */
  datatype RegisterFault = RegisterLookupFails | HashFails | CreateFails | RegisterSessionFails

  /** Where `login` throws, if it does. */
  datatype LoginFault = LoginLookupFails | CompareFails | LoginSessionFails

  const FIELDS_REQUIRED: string := "All fields are required"
  const EMAIL_EXISTS: string := "Email already exists"
  const REGISTRATION_FAILED: string := "Registration failed"
  const INVALID_CREDENTIALS: string := "Invalid credentials"
  const LOGIN_FAILED: string := "Login failed"

  /** `!field` is false: the form field is present and non-empty. */
  predicate Given(field: Option<string>)
  {
    field.Some? && field.value != ""
  }

  class Auth {
    var users: map<string, User>
    /** The user id in the `session_token` cookie, if one is set. */
    var session: Option<string>

    /** Every user is filed under its own email. */
    ghost predicate Valid()
      reads this
    {
      forall e :: e in users ==> users[e].email == e
    }

    constructor ()
      ensures Valid() && users == map[] && session.None?
    {
      users := map[];
      session := None;
    }

    /**
     * `register(formData)`. `newId` is the id the database assigns and `salt` the salt bcrypt draws.
     */
    method Register(name: Option<string>, email: Option<string>, password: Option<string>,
                    h: Hasher, salt: string, newId: string, fault: Option<RegisterFault>)
      returns (r: Outcome)
      requires Valid()
      modifies this
      ensures Valid()
      ensures r.FormError? ==> session == old(session)
      ensures !Given(name) || !Given(email) || !Given(password) ==>
        r == FormError(FIELDS_REQUIRED) && users == old(users) && session == old(session)
      ensures Given(name) && Given(email) && Given(password) ==>
        var added := old(users)[email.value := User(newId, name.value, email.value, h.hash(password.value, salt))];
        && (fault == Some(RegisterLookupFails) ==>
              r == FormError(REGISTRATION_FAILED) && users == old(users) && session == old(session))
        && (fault != Some(RegisterLookupFails) && email.value in old(users) ==>
              r == FormError(EMAIL_EXISTS) && users == old(users) && session == old(session))
        && (fault != Some(RegisterLookupFails) && email.value !in old(users) ==>
              && (fault == Some(HashFails) || fault == Some(CreateFails) ==>
                    r == FormError(REGISTRATION_FAILED) && users == old(users) && session == old(session))
              && (fault == Some(RegisterSessionFails) ==>
                    r == FormError(REGISTRATION_FAILED) && users == added && session == old(session))
              && (fault.None? ==> r == Redirect("/") && users == added && session == Some(newId)))
    {
      if !Given(name) || !Given(email) || !Given(password) {
        return FormError(FIELDS_REQUIRED);
      }
      if fault == Some(RegisterLookupFails) {
        return FormError(REGISTRATION_FAILED);
      }
      if email.value in users {
        return FormError(EMAIL_EXISTS);
      }
      if fault == Some(HashFails) {
        return FormError(REGISTRATION_FAILED);
      }
      var hashedPassword := h.hash(password.value, salt);
      if fault == Some(CreateFails) {
        return FormError(REGISTRATION_FAILED);
      }
      users := users[email.value := User(newId, name.value, email.value, hashedPassword)];
      if fault == Some(RegisterSessionFails) {
        return FormError(REGISTRATION_FAILED);
      }
      session := Some(newId);
      r := Redirect("/");
    }

    /** `login(formData)`. An unknown email and a wrong password give the same answer. */
    method Login(email: Option<string>, password: Option<string>, h: Hasher, fault: Option<LoginFault>)
      returns (r: Outcome)
      requires Valid()
      modifies this
      ensures Valid() && users == old(users)
      ensures r.FormError? ==> session == old(session)
      ensures !Given(email) || !Given(password) ==> r == FormError(FIELDS_REQUIRED) && session == old(session)
      ensures Given(email) && Given(password) ==>
        && (fault == Some(LoginLookupFails) ==> r == FormError(LOGIN_FAILED) && session == old(session))
        && (fault != Some(LoginLookupFails) && email.value !in users ==>
              r == FormError(INVALID_CREDENTIALS) && session == old(session))
        && (fault != Some(LoginLookupFails) && email.value in users ==>
              var user := users[email.value];
              && (fault == Some(CompareFails) ==> r == FormError(LOGIN_FAILED) && session == old(session))
              && (fault != Some(CompareFails) && !h.compare(password.value, user.passwordHash) ==>
                    r == FormError(INVALID_CREDENTIALS) && session == old(session))
              && (fault != Some(CompareFails) && h.compare(password.value, user.passwordHash) ==>
                    && (fault == Some(LoginSessionFails) ==>
                          r == FormError(LOGIN_FAILED) && session == old(session))
                    && (fault.None? ==> r == Redirect("/") && session == Some(user.id))))
    {
      if !Given(email) || !Given(password) {
        return FormError(FIELDS_REQUIRED);
      }
      if fault == Some(LoginLookupFails) {
        return FormError(LOGIN_FAILED);
      }
      if email.value !in users {
        return FormError(INVALID_CREDENTIALS);
      }
      var user := users[email.value];
      if fault == Some(CompareFails) {
        return FormError(LOGIN_FAILED);
      }
      var isMatch := h.compare(password.value, user.passwordHash);
      if !isMatch {
        return FormError(INVALID_CREDENTIALS);
      }
      if fault == Some(LoginSessionFails) {
        return FormError(LOGIN_FAILED);
      }
      session := Some(user.id);
      r := Redirect("/");
    }

    /**
     * `register` followed by `login` with the same email and password, neither throwing: a new
     * email is signed up and then signed in as the new user; a taken email is refused at sign-up,
     * and the login then succeeds exactly when the password matches the existing account.
     */
    method RegisterThenLogin(name: string, email: string, password: string, h: Hasher, salt: string,
                             newId: string)
      returns (registered: Outcome, loggedIn: Outcome)
      requires Valid() && Lawful(h) && name != "" && email != "" && password != ""
      modifies this
      ensures Valid()
      ensures email !in old(users) ==>
        && registered == Redirect("/") && loggedIn == Redirect("/") && session == Some(newId)
        && users == old(users)[email := User(newId, name, email, h.hash(password, salt))]
      ensures email in old(users) ==>
        && registered == FormError(EMAIL_EXISTS) && users == old(users)
        && (loggedIn == Redirect("/") <==> h.compare(password, old(users)[email].passwordHash))
        && (loggedIn == Redirect("/") ==> session == Some(old(users)[email].id))
    {
      registered := Register(Some(name), Some(email), Some(password), h, salt, newId, None);
      loggedIn := Login(Some(email), Some(password), h, None);
    }

    /** `logout()`: the cookie is deleted. */
    method Logout() returns (r: Outcome)
      modifies this
      ensures session.None? && users == old(users) && r == Redirect("/login")
    {
      session := None;
      r := Redirect("/login");
    }
  }
}
