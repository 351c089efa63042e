/** How the flows fit together: a user the register action inserts is the
    one the login action signs in, as long as no older row holds the new
    identifier in the other column. Registration compares the new email with
    the emails and the new username with the usernames, while login matches
    one identifier against both columns. When an older username equals the
    new email (or an older email the new username), two different users
    answer to that identifier, and a single-row `.get` can sign in only one
    of them. Which one SQLite returns is its own choice; the model's lookup
    takes the first in table order, which is the older row. */
module Scenarios {
  import opened Records
  import opened Tables
  import Register
  import Login

  /** The login lookup finds the new row when no older row has the
      identifier in either column. */
  lemma NewRowFound(users: seq<User>, email: string, username: string, passwordHash: string, identifier: string)
    requires identifier == email || identifier == username
    requires forall j :: 0 <= j < |users| ==> !MatchesEmailOrUsername(users[j], identifier, identifier)
    ensures FindByEmailOrUsername(Register.Inserted(users, email, username, passwordHash), identifier, identifier) == Some(|users|)
  {
  }

  /** Logging in with the registered username and the registered password
      authenticates the new row, provided bcrypt accepts the password against
      its own hash and no older row has the username as its email. */
  lemma LoginByUsernameAfterRegister(users: seq<User>, email: string, username: string, password: string,
                                     hashPassword: string -> string, comparePassword: (string, string) -> bool)
    requires !Register.Taken(users, email, username)
    requires forall j :: 0 <= j < |users| ==> users[j].email != username
    requires hashPassword(password) != "" && comparePassword(password, hashPassword(password))
    ensures Login.Authenticate(Register.Inserted(users, email, username, hashPassword(password)), username, password, comparePassword)
            == Some(|users|)
  {
  }

  /** The same by email, provided no older row has the email as its
      username. */
  lemma LoginByEmailAfterRegister(users: seq<User>, email: string, username: string, password: string,
                                  hashPassword: string -> string, comparePassword: (string, string) -> bool)
    requires !Register.Taken(users, email, username)
    requires forall j :: 0 <= j < |users| ==> users[j].username != email
    requires hashPassword(password) != "" && comparePassword(password, hashPassword(password))
    ensures Login.Authenticate(Register.Inserted(users, email, username, hashPassword(password)), email, password, comparePassword)
            == Some(|users|)
  {
  }

  /** Without that proviso the identifier is ambiguous: the older row `j`
      whose username is the new email and the new row both answer to it,
      and they are different users, so whichever row a single-row lookup
      returns, the other cannot sign in with it. In table order the older
      row wins. */
  lemma EmailShadowed(users: seq<User>, j: nat, email: string, username: string, passwordHash: string)
    requires j < |users| && users[j].username == email
    ensures var after := Register.Inserted(users, email, username, passwordHash);
            && MatchesEmailOrUsername(after[j], email, email)
            && MatchesEmailOrUsername(after[|users|], email, email)
            && after[j].id != after[|users|].id
            && FindByEmailOrUsername(after, email, email) != Some(|users|)
  {
    var after := Register.Inserted(users, email, username, passwordHash);
    assert after[j] == users[j];
  }

  /** A concrete instance: a user named "ann@example.com" exists, a second
      person registers with that string as their email (nothing is taken,
      since it is compared with emails only), and both rows answer to it. */
  lemma ShadowedEmail()
    ensures var users := [User(1, "ann@other.org", "ann@example.com", Some("h1"), None, None)];
            var after := Register.Inserted(users, "ann@example.com", "bea", "h2");
            && !Register.Taken(users, "ann@example.com", "bea")
            && MatchesEmailOrUsername(after[0], "ann@example.com", "ann@example.com")
            && MatchesEmailOrUsername(after[1], "ann@example.com", "ann@example.com")
            && FindByEmailOrUsername(after, "ann@example.com", "ann@example.com") == Some(0)
  {
  }
}
