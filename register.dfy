/** The `action` of app/routes/register.tsx: collect the field errors, refuse
    an email or username that is taken, insert exactly one user with the
    bcrypt hash of the password, and sign the new user in. */
module Register {
  import opened Records
  import opened Tables
  import opened AuthServer

  datatype Form = Form(email: FormValue, username: FormValue, password: FormValue, confirmPassword: FormValue)

  const EmailError := "Invalid email address"
  const UsernameError := "Username must be at least 3 characters long"
  const PasswordError := "Password must be at least 6 characters long"
  const ConfirmPasswordError := "Passwords do not match"
  const AccountExists := "An account with this email or username already exists."
  const UnexpectedError := "An unexpected error occurred. Please try again."
  const AfterRegister := "/dashboard"

  predicate EmailOk(v: FormValue) { v.Text? && '@' in v.s }
  /** The length checks count UTF-16 code units, as `.length` does. */
  predicate UsernameOk(v: FormValue) { v.Text? && Utf16Length(v.s) >= 3 }
  predicate PasswordOk(v: FormValue) { v.Text? && Utf16Length(v.s) >= 6 }

  predicate FieldsOk(form: Form) {
    EmailOk(form.email) && UsernameOk(form.username) && PasswordOk(form.password) &&
    SameEntry(form.password, form.confirmPassword)
  }

  /** The four checks, each run on its own: the error map holds exactly the
      keys of the checks that failed, each with its message. */
  method Validate(form: Form) returns (errors: map<string, string>)
    ensures "email" in errors <==> !EmailOk(form.email)
    ensures "username" in errors <==> !UsernameOk(form.username)
    ensures "password" in errors <==> !PasswordOk(form.password)
    ensures "confirmPassword" in errors <==> !SameEntry(form.password, form.confirmPassword)
    ensures errors.Keys <= {"email", "username", "password", "confirmPassword"}
    ensures errors == map[] <==> FieldsOk(form)
    ensures "email" in errors ==> errors["email"] == EmailError
    ensures "username" in errors ==> errors["username"] == UsernameError
    ensures "password" in errors ==> errors["password"] == PasswordError
    ensures "confirmPassword" in errors ==> errors["confirmPassword"] == ConfirmPasswordError
  {
    errors := map[];
    if !EmailOk(form.email) {
      errors := errors["email" := EmailError];
    }
    if !UsernameOk(form.username) {
      errors := errors["username" := UsernameError];
    }
    if !PasswordOk(form.password) {
      errors := errors["password" := PasswordError];
    }
    if !SameEntry(form.password, form.confirmPassword) {
      errors := errors["confirmPassword" := ConfirmPasswordError];
    }
  }

  /** Some user already has the email or the username. */
  predicate Taken(users: seq<User>, email: string, username: string) {
    exists j :: 0 <= j < |users| && MatchesEmailOrUsername(users[j], email, username)
  }

  /** The users table after `INSERT INTO users (email, username,
      passwordHash)`: the old rows, then one row with the next rowid, the
      given columns, and no reset token or expiry. */
  function Inserted(users: seq<User>, email: string, username: string, passwordHash: string): (after: seq<User>)
    ensures |after| == |users| + 1
    ensures after[..|users|] == users
    ensures after[|users|].id == NextUserId(users)
    ensures after[|users|].email == email && after[|users|].username == username
    ensures after[|users|].passwordHash == Some(passwordHash)
    ensures after[|users|].resetPasswordToken == None && after[|users|].resetPasswordExpires == None
  {
    users + [User(NextUserId(users), email, username, Some(passwordHash), None, None)]
  }

  /** `.length` counts UTF-16 code units, so two astral characters make a
      long enough username and three a long enough password. */
  lemma AstralLengths()
    ensures UsernameOk(Text("\U{1F600}\U{1F600}"))
    ensures PasswordOk(Text("\U{1F600}\U{1F600}\U{1F600}"))
    ensures !UsernameOk(Text("ab"))
  {
  }

  /** Adding a row whose id, email and username are all new keeps the
      UNIQUE constraints and the positive ids. */
  lemma InsertKeepsWellFormed(users: seq<User>, row: User)
    requires UsersWellFormed(users) && row.id > 0
    requires forall j :: 0 <= j < |users| ==>
               users[j].id != row.id && users[j].email != row.email && users[j].username != row.username
    ensures UsersWellFormed(users + [row])
  {
  }

  /** The action. With the form valid and the names free, the users table
      grows by exactly one row and the response signs that row in. */
  method Action(store: Store, form: Form, hashPassword: string -> string, storeFails: bool) returns (r: FormOutcome)
    requires store.Valid()
    modifies store
    ensures store.Valid()
    ensures store.licenseKeys == old(store.licenseKeys) && store.apiKeys == old(store.apiKeys)
    ensures r.Redirected? <==> store.users != old(store.users)
    ensures !FieldsOk(form) ==>
              && r.Rejected? && r.status == BadRequest
              && r.errors.Keys <= {"email", "username", "password", "confirmPassword"}
              && ("email" in r.errors <==> !EmailOk(form.email))
              && ("username" in r.errors <==> !UsernameOk(form.username))
              && ("password" in r.errors <==> !PasswordOk(form.password))
              && ("confirmPassword" in r.errors <==> !SameEntry(form.password, form.confirmPassword))
              && ("email" in r.errors ==> r.errors["email"] == EmailError)
              && ("username" in r.errors ==> r.errors["username"] == UsernameError)
              && ("password" in r.errors ==> r.errors["password"] == PasswordError)
              && ("confirmPassword" in r.errors ==> r.errors["confirmPassword"] == ConfirmPasswordError)
    ensures FieldsOk(form) && storeFails ==>
              r == Rejected(InternalServerError, map["form" := UnexpectedError])
    ensures FieldsOk(form) && !storeFails && Taken(old(store.users), form.email.s, form.username.s) ==>
              r == Rejected(BadRequest, map["form" := AccountExists])
    ensures FieldsOk(form) && !storeFails && !Taken(old(store.users), form.email.s, form.username.s) ==>
              && store.users == Inserted(old(store.users), form.email.s, form.username.s, hashPassword(form.password.s))
              && r == Redirected(Redirect(AfterRegister, Some(Committed(UserSessionData(NextUserId(old(store.users)), form.username.s)))))
    ensures r.Redirected? ==>
              GetUserFromSession(NextCookie(r.redirect.setCookie.value))
              == Some(SessionUser(NextUserId(old(store.users)), form.username.s, ""))
  {
    var errors := Validate(form);
    if |errors| > 0 {
      r := Rejected(BadRequest, errors);
      return;
    }
    if storeFails {
      errors := errors["form" := UnexpectedError];
      r := Rejected(InternalServerError, errors);
      return;
    }
    var email, username, password := form.email.s, form.username.s, form.password.s;
    var existing := FindByEmailOrUsername(store.users, email, username);
    if existing.Some? {
      errors := errors["form" := AccountExists];
      r := Rejected(BadRequest, errors);
      return;
    }
    var passwordHash := hashPassword(password);
    var row := User(NextUserId(store.users), email, username, Some(passwordHash), None, None);
    InsertKeepsWellFormed(store.users, row);
    store.users := store.users + [row];
    var userId := row.id;
    var redirect := CreateUserSession(userId, username, AfterRegister);
    r := Redirected(redirect);
  }
}
