/** The `action` of app/routes/login.tsx: check the fields, find the user by
    email or username, compare the password with bcrypt, and sign the user
    in. Every credential failure gets the same 401. The action only reads
    the store. */
module Login {
  import opened Records
  import opened Tables
  import opened AuthServer

  datatype Form = Form(usernameOrEmail: FormValue, password: FormValue, redirectTo: FormValue)

  const IdentifierError := "Username or Email is required"
  const PasswordError := "Password is required"
  const RedirectError := "Invalid redirect path"
  const InvalidCredentials := "Invalid username/email or password."
  const UnexpectedError := "An unexpected error occurred. Please try again."
  const DefaultRedirect := "/dashboard"

  predicate NonEmptyText(v: FormValue) { v.Text? && v.s != "" }

  /** `formData.get("redirectTo") || "/dashboard"`: a missing or empty entry
      falls back to the dashboard. */
  function RedirectTarget(v: FormValue): (r: FormValue)
    ensures r.Text? <==> !v.File?
    ensures r.Text? ==> r.s != ""
    ensures NonEmptyText(v) ==> r == v
    ensures v == Absent || v == Text("") ==> r == Text(DefaultRedirect)
  {
    if v == Absent || v == Text("") then Text(DefaultRedirect) else v
  }

  predicate FieldsOk(form: Form) {
    NonEmptyText(form.usernameOrEmail) && NonEmptyText(form.password) && !form.redirectTo.File?
  }

  /** The three checks, each run on its own: the error map holds exactly the
      keys of the checks that failed. */
  method Validate(form: Form) returns (errors: map<string, string>)
    ensures "usernameOrEmail" in errors <==> !NonEmptyText(form.usernameOrEmail)
    ensures "password" in errors <==> !NonEmptyText(form.password)
    ensures "form" in errors <==> !RedirectTarget(form.redirectTo).Text?
    ensures errors.Keys <= {"usernameOrEmail", "password", "form"}
    ensures errors == map[] <==> FieldsOk(form)
    ensures "usernameOrEmail" in errors ==> errors["usernameOrEmail"] == IdentifierError
    ensures "password" in errors ==> errors["password"] == PasswordError
    ensures "form" in errors ==> errors["form"] == RedirectError
  {
    var redirectTo := RedirectTarget(form.redirectTo);
    errors := map[];
    if !NonEmptyText(form.usernameOrEmail) {
      errors := errors["usernameOrEmail" := IdentifierError];
    }
    if !NonEmptyText(form.password) {
      errors := errors["password" := PasswordError];
    }
    if !redirectTo.Text? {
      errors := errors["form" := RedirectError];
    }
  }

  /** `!user.passwordHash` is false: the row has a non-empty hash. */
  predicate HasPasswordHash(u: User) {
    u.passwordHash.Some? && u.passwordHash.value != ""
  }

  /** The credential decision: the index of the user to sign in, or `None`
      for the generic refusal. The user found by the identifier must have a
      hash, and bcrypt must accept the password against it. */
  function Authenticate(users: seq<User>, identifier: string, password: string,
                        comparePassword: (string, string) -> bool): (r: Option<nat>)
    ensures r.Some? ==> r.value < |users| && MatchesEmailOrUsername(users[r.value], identifier, identifier)
    ensures r.Some? ==> r == FindByEmailOrUsername(users, identifier, identifier)
    ensures r.Some? ==> HasPasswordHash(users[r.value]) && comparePassword(password, users[r.value].passwordHash.value)
    ensures r.None? <==>
              match FindByEmailOrUsername(users, identifier, identifier)
              case None => true
              case Some(k) => !HasPasswordHash(users[k]) || !comparePassword(password, users[k].passwordHash.value)
  {
    match FindByEmailOrUsername(users, identifier, identifier)
    case None => None
    case Some(k) =>
      if !HasPasswordHash(users[k]) then None
      else if !comparePassword(password, users[k].passwordHash.value) then None
      else Some(k)
  }

  /** The action. Invalid fields give 400 before the store is consulted; an
      unknown user, a user without a hash and a wrong password all give the
      same 401; success redirects to the target with the user's session. */
  method Action(store: Store, form: Form, comparePassword: (string, string) -> bool, storeFails: bool)
    returns (r: FormOutcome)
    ensures !FieldsOk(form) ==>
              && r.Rejected? && r.status == BadRequest
              && r.errors.Keys <= {"usernameOrEmail", "password", "form"}
              && ("usernameOrEmail" in r.errors <==> !NonEmptyText(form.usernameOrEmail))
              && ("password" in r.errors <==> !NonEmptyText(form.password))
              && ("form" in r.errors <==> form.redirectTo.File?)
              && ("usernameOrEmail" in r.errors ==> r.errors["usernameOrEmail"] == IdentifierError)
              && ("password" in r.errors ==> r.errors["password"] == PasswordError)
              && ("form" in r.errors ==> r.errors["form"] == RedirectError)
    ensures FieldsOk(form) && storeFails ==>
              r == Rejected(InternalServerError, map["form" := UnexpectedError])
    ensures r.Rejected? && r.status == Unauthorized <==>
              FieldsOk(form) && !storeFails &&
              Authenticate(store.users, form.usernameOrEmail.s, form.password.s, comparePassword).None?
    ensures r.Rejected? && r.status == Unauthorized ==> r.errors == map["form" := InvalidCredentials]
    ensures r.Redirected? ==>
              && FieldsOk(form) && !storeFails
              && var k := Authenticate(store.users, form.usernameOrEmail.s, form.password.s, comparePassword);
              && k.Some?
              && r.redirect == Redirect(RedirectTarget(form.redirectTo).s,
                                        Some(Committed(UserSessionData(store.users[k.value].id, store.users[k.value].username))))
    ensures (FieldsOk(form) && !storeFails &&
             Authenticate(store.users, form.usernameOrEmail.s, form.password.s, comparePassword).Some?) ==> r.Redirected?
  {
    var redirectTo := RedirectTarget(form.redirectTo);
    var errors := Validate(form);
    if |errors| > 0 {
      r := Rejected(BadRequest, errors);
      return;
    }
    if storeFails {
      errors := errors["form" := UnexpectedError];
      r := Rejected(InternalServerError, errors);
      return;
    }
    var identifier, password := form.usernameOrEmail.s, form.password.s;
    var k := Authenticate(store.users, identifier, password, comparePassword);
    if k.None? {
      errors := errors["form" := InvalidCredentials];
      r := Rejected(Unauthorized, errors);
      return;
    }
    var user := store.users[k.value];
    var redirect := CreateUserSession(user.id, user.username, redirectTo.s);
    r := Redirected(redirect);
  }
}
