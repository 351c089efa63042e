/** The `action` of app/routes/forgot-password.tsx: check the email, and when
    a user has it, store the hash of a fresh reset token and its expiry on
    that user's row and hand back a link holding the plaintext token. The
    reply is 200 whether or not an account exists. */
module ForgotPassword {
  import opened Records
  import opened Tables
  import opened AuthServer

  const InvalidEmail := "Please enter a valid email address."
  const LinkIssued := "If an account with that email exists, a password reset link has been generated (check below)."
  const NoAccountMessage := "If an account with that email exists, a password reset link has been generated."
  const UnexpectedError := "An unexpected error occurred. Please try again."
  /** One hour, in milliseconds. */
  const ResetTokenLifetime := 3600000
  const ResetPath := "/reset-password/"

  /** The JSON reply `{ errors, message, resetLink }` and its status. */
  datatype Reply = Reply(status: int, errors: map<string, string>, message: Option<string>, resetLink: Option<string>)

  predicate EmailOk(v: FormValue) { v.Text? && '@' in v.s }

  /** `UPDATE users SET resetPasswordToken = ?, resetPasswordExpires = ?
      WHERE id = ?`: every row with the id gets the token hash and the
      expiry, replacing whatever it held; nothing else changes. */
  function SetResetToken(users: seq<User>, id: int, hashedToken: string, expires: int): (r: seq<User>)
    ensures |r| == |users|
    ensures forall i :: 0 <= i < |users| && users[i].id != id ==> r[i] == users[i]
    ensures forall i :: 0 <= i < |users| && users[i].id == id ==>
              r[i] == users[i].(resetPasswordToken := Some(hashedToken), resetPasswordExpires := Some(expires))
  {
    if |users| == 0 then []
    else
      var head := if users[0].id == id
                  then users[0].(resetPasswordToken := Some(hashedToken), resetPasswordExpires := Some(expires))
                  else users[0];
      [head] + SetResetToken(users[1..], id, hashedToken, expires)
  }

  /** The update leaves ids, emails and usernames alone, so the UNIQUE
      constraints still hold. */
  lemma SetResetTokenKeepsWellFormed(users: seq<User>, id: int, hashedToken: string, expires: int)
    requires UsersWellFormed(users)
    ensures UsersWellFormed(SetResetToken(users, id, hashedToken, expires))
  {
  }

  /** Issuing twice for the same user keeps only the second token and
      expiry: a user holds at most one outstanding token. */
  lemma ReissueOverwrites(users: seq<User>, id: int, h1: string, e1: int, h2: string, e2: int)
    ensures SetResetToken(SetResetToken(users, id, h1, e1), id, h2, e2) == SetResetToken(users, id, h2, e2)
  {
  }

  /** The action. */
  method Action(store: Store, email: FormValue, origin: string, now: int, random: seq<byte>,
                sha256Hex: string -> string, storeFails: bool) returns (r: Reply)
    requires store.Valid()
    requires |random| == ResetTokenBytes
    modifies store
    ensures store.Valid()
    ensures store.licenseKeys == old(store.licenseKeys) && store.apiKeys == old(store.apiKeys)
    ensures |store.users| == |old(store.users)|
    ensures !EmailOk(email) ==>
              r == Reply(BadRequest, map["email" := InvalidEmail], None, None) && store.users == old(store.users)
    ensures EmailOk(email) && storeFails ==>
              r == Reply(InternalServerError, map["form" := UnexpectedError], None, None) && store.users == old(store.users)
    ensures EmailOk(email) && !storeFails && FindByEmail(old(store.users), email.s).None? ==>
              r == Reply(OK, map[], Some(NoAccountMessage), None) && store.users == old(store.users)
    ensures EmailOk(email) && !storeFails && FindByEmail(old(store.users), email.s).Some? ==>
              var k := FindByEmail(old(store.users), email.s).value;
              var t := GenerateResetToken(random, sha256Hex);
              && store.users == SetResetToken(old(store.users), old(store.users)[k].id, t.hashedToken, now + ResetTokenLifetime)
              && store.users[k] == old(store.users)[k].(resetPasswordToken := Some(HashResetToken(sha256Hex, t.token)),
                                                         resetPasswordExpires := Some(now + ResetTokenLifetime))
              && (forall i :: 0 <= i < |store.users| && i != k ==> store.users[i] == old(store.users)[i])
              && r == Reply(OK, map[], Some(LinkIssued), Some(origin + ResetPath + t.token))
    ensures r.status == OK ==> r.errors == map[] && r.message.Some?
  {
    var errors: map<string, string> := map[];
    var message: Option<string> := None;
    var resetLink: Option<string> := None;
    if !EmailOk(email) {
      errors := errors["email" := InvalidEmail];
      r := Reply(BadRequest, errors, message, resetLink);
      return;
    }
    if storeFails {
      errors := errors["form" := UnexpectedError];
      r := Reply(InternalServerError, errors, None, None);
      return;
    }
    var found := FindByEmail(store.users, email.s);
    if found.Some? {
      var user := store.users[found.value];
      var t := GenerateResetToken(random, sha256Hex);
      var expires := now + ResetTokenLifetime;
      SetResetTokenKeepsWellFormed(store.users, user.id, t.hashedToken, expires);
      store.users := SetResetToken(store.users, user.id, t.hashedToken, expires);
      resetLink := Some(origin + ResetPath + t.token);
      message := Some(LinkIssued);
    } else {
      message := Some(NoAccountMessage);
    }
    r := Reply(OK, map[], message, resetLink);
  }
}
