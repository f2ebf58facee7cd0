/**
 * The account handlers (`register_user`, `login`, `request_password_reset`,
 * `change_password`), the bearer-token resolution every authenticated route
 * goes through (`get_current_user`) and `get_login_activity`, as functions
 * from the users and login-activity tables to a reply and the new table.
 */
module Accounts {
  import opened Wrappers
  import opened Records
  import opened Query

  const ResetSent := "Password reset link has been sent to your email"
  const PasswordChanged := "Password has been successfully changed"

  /** The body of a successful login: `{access_token, token_type}`. */
  datatype TokenReply = TokenReply(accessToken: AccessToken, tokenType: string)

  /** The body of a successful reset request: `{message, token}`. */
  datatype ResetReply = ResetReply(message: string, token: string)

  predicate Registered(users: seq<User>, email: string) {
    exists i :: 0 <= i < |users| && users[i].email == email
  }

  /** No user currently holds `token` as reset token. */
  predicate HeldByNone(users: seq<User>, token: string) {
    forall i :: 0 <= i < |users| ==> users[i].resetToken != Some(token)
  }

  /** `register_user`: a known e-mail is refused; otherwise one user is appended. */
  function Register(users: seq<User>, email: string, username: string, password: string, salt: nat)
    : (out: (Result<User, Error>, seq<User>))
    ensures Registered(users, email) ==> out == (Err(EmailTaken), users)
    ensures !Registered(users, email) ==>
      && out.0.Ok?
      && out.1 == users + [out.0.value]
      && out.0.value.id == |users| + 1
      && out.0.value.email == email
      && out.0.value.username == username
      && out.0.value.resetToken == None
      && VerifyPassword(password, out.0.value.hashedPassword)
    ensures out.0.Ok? ==> forall i :: 0 <= i < |out.1| && out.1[i].email == email ==> i == |users|
    ensures EmailsUnique(users) ==> EmailsUnique(out.1)
  {
    if First(users, EmailIs(email)).Some? then (Err(EmailTaken), users)
    else
      var user := User(|users| + 1, email, username, HashPassword(password, salt), None);
      (Ok(user), users + [user])
  }

  /**
   * `login`: the first user with that e-mail must exist and its digest must
   * verify the password; a success logs one activity row for that user and
   * returns a token whose subject is the e-mail.
   */
  function Login(users: seq<User>, logins: seq<LoginActivity>, email: string, password: string)
    : (out: (Result<TokenReply, Error>, seq<LoginActivity>))
    ensures out.0.Err? ==> out == (Err(BadCredentials), logins)
    ensures out.0.Ok? ==>
      && out.0.value == TokenReply(AccessToken(email), "bearer")
      && exists i :: 0 <= i < |users| && users[i].email == email
           && VerifyPassword(password, users[i].hashedPassword)
           && out.1 == logins + [LoginActivity(|logins| + 1, users[i].id)]
    ensures EmailsUnique(users) ==>
      (out.0.Ok? <==> exists i :: 0 <= i < |users| && users[i].email == email && VerifyPassword(password, users[i].hashedPassword))
  {
    match First(users, EmailIs(email))
    case None => (Err(BadCredentials), logins)
    case Some(i) =>
      if !VerifyPassword(password, users[i].hashedPassword) then (Err(BadCredentials), logins)
      else (Ok(TokenReply(AccessToken(users[i].email), "bearer")), logins + [LoginActivity(|logins| + 1, users[i].id)])
  }

  /** `get_current_user`: the user a bearer token names, or 401. */
  function CurrentUser(users: seq<User>, token: AccessToken): (r: Result<User, Error>)
    ensures r.Err? <==> !Registered(users, token.subject)
    ensures r.Err? ==> r.error == InvalidCredentials
    ensures r.Ok? ==> r.value in users && r.value.email == token.subject
    ensures r.Ok? && EmailsUnique(users) ==> forall i :: 0 <= i < |users| && users[i].email == token.subject ==> users[i] == r.value
  {
    match First(users, EmailIs(token.subject))
    case None => Err(InvalidCredentials)
    case Some(i) => Ok(users[i])
  }

  /** `get_login_activity`: the caller's own login rows, in the order they were logged. */
  function LoginHistory(users: seq<User>, logins: seq<LoginActivity>, token: AccessToken): (r: Result<seq<LoginActivity>, Error>)
    ensures r.Err? <==> !Registered(users, token.subject)
    ensures r.Err? ==> r.error == InvalidCredentials
    ensures r.Ok? ==> forall i :: 0 <= i < |r.value| ==> r.value[i] in logins && r.value[i].userId == CurrentUser(users, token).value.id
    ensures r.Ok? ==> forall i :: 0 <= i < |logins| && logins[i].userId == CurrentUser(users, token).value.id ==> logins[i] in r.value
  {
    match CurrentUser(users, token)
    case Err(e) => Err(e)
    case Ok(user) => Ok(Where(logins, LoggedBy(user.id)))
  }

  /** `request_password_reset`: stores the freshly drawn `token` on the first user with that e-mail. */
  function RequestReset(users: seq<User>, email: string, token: string): (out: (Result<ResetReply, Error>, seq<User>))
    ensures !Registered(users, email) ==> out == (Err(UserNotFound), users)
    ensures Registered(users, email) ==>
      && out.0 == Ok(ResetReply(ResetSent, token))
      && exists i :: 0 <= i < |users| && users[i].email == email
           && (forall j :: 0 <= j < i ==> users[j].email != email)
           && out.1 == users[i := users[i].(resetToken := Some(token))]
    ensures |out.1| == |users|
    ensures forall j :: 0 <= j < |users| ==> out.1[j].id == users[j].id && out.1[j].email == users[j].email
  {
    match First(users, EmailIs(email))
    case None => (Err(UserNotFound), users)
    case Some(i) => (Ok(ResetReply(ResetSent, token)), users[i := users[i].(resetToken := Some(token))])
  }

  /**
   * `change_password`: the first user holding `token` gets a digest of the new
   * password and loses the token; a token nobody holds is refused.
   */
  function ChangePassword(users: seq<User>, token: string, newPassword: string, salt: nat)
    : (out: (Result<string, Error>, seq<User>))
    ensures |out.1| == |users|
    ensures forall j :: 0 <= j < |users| ==> out.1[j].id == users[j].id && out.1[j].email == users[j].email
    ensures HeldByNone(users, token) ==> out == (Err(InvalidResetToken), users)
    ensures !HeldByNone(users, token) ==>
      && out.0 == Ok(PasswordChanged)
      && exists i :: 0 <= i < |users| && users[i].resetToken == Some(token)
           && (forall j :: 0 <= j < i ==> users[j].resetToken != Some(token))
           && out.1 == users[i := users[i].(hashedPassword := out.1[i].hashedPassword, resetToken := None)]
           && VerifyPassword(newPassword, out.1[i].hashedPassword)
  {
    match First(users, ResetTokenIs(token))
    case None => (Err(InvalidResetToken), users)
    case Some(i) =>
      (Ok(PasswordChanged), users[i := users[i].(hashedPassword := HashPassword(newPassword, salt), resetToken := None)])
  }

  /** A reset token works once: presenting it again after it was consumed is refused and changes nothing. */
  lemma ResetTokenSingleUse(users: seq<User>, token: string, password: string, salt: nat, retry: string, retrySalt: nat)
    requires forall i, j :: 0 <= i < j < |users| && users[i].resetToken == Some(token) ==> users[j].resetToken != Some(token)
    requires ChangePassword(users, token, password, salt).0.Ok?
    ensures var after := ChangePassword(users, token, password, salt).1;
            ChangePassword(after, token, retry, retrySalt) == (Err(InvalidResetToken), after)
  {
    var after := ChangePassword(users, token, password, salt).1;
    var i :| 0 <= i < |users| && users[i].resetToken == Some(token) && after == users[i := after[i]] && after[i].resetToken == None;
    assert HeldByNone(after, token);
  }

  /** A new user holds no reset token, so registering keeps reset tokens unique. */
  lemma RegisterKeepsTokensUnique(users: seq<User>, email: string, username: string, password: string, salt: nat)
    requires TokensUnique(users)
    ensures TokensUnique(Register(users, email, username, password, salt).1)
  {
    var after := Register(users, email, username, password, salt).1;
    if after != users {
      assert after[|users|].resetToken == None;
      assert forall j :: 0 <= j < |users| ==> after[j] == users[j];
    }
  }

  /** Handing out a token nobody holds keeps reset tokens unique. */
  lemma RequestResetKeepsTokensUnique(users: seq<User>, email: string, token: string)
    requires TokensUnique(users) && HeldByNone(users, token)
    ensures TokensUnique(RequestReset(users, email, token).1)
  {
    var after := RequestReset(users, email, token).1;
    if Registered(users, email) {
      var i :| 0 <= i < |users| && after == users[i := users[i].(resetToken := Some(token))];
      forall j, k | 0 <= j < k < |after| && after[j].resetToken.Some?
        ensures after[k].resetToken != after[j].resetToken
      {
        if j != i && k != i {
          assert after[j] == users[j] && after[k] == users[k];
        }
      }
    }
  }

  /**
   * Changing a password only clears a token, so reset tokens stay unique;
   * and when tokens are unique a successful change leaves nobody holding the
   * token it spent.
   */
  lemma ChangePasswordKeepsTokensUnique(users: seq<User>, token: string, newPassword: string, salt: nat)
    requires TokensUnique(users)
    ensures var out := ChangePassword(users, token, newPassword, salt);
      && TokensUnique(out.1)
      && (out.0.Ok? ==> HeldByNone(out.1, token))
  {
    var out := ChangePassword(users, token, newPassword, salt);
    if out.0.Ok? {
      var i :| 0 <= i < |users| && users[i].resetToken == Some(token)
        && out.1 == users[i := users[i].(hashedPassword := out.1[i].hashedPassword, resetToken := None)];
      forall j, k | 0 <= j < k < |out.1| && out.1[j].resetToken.Some?
        ensures out.1[k].resetToken != out.1[j].resetToken
      {
        if k != i {
          assert out.1[j] == users[j] && out.1[k] == users[k];
        }
      }
      ResetTokenSingleUse(users, token, newPassword, salt, newPassword, salt);
    }
  }

  /**
   * A token requested for a registered e-mail and held by nobody before
   * changes the password of exactly the user who asked (row `i`): that row
   * now verifies the new password, every e-mail is kept, and nobody holds
   * the token any more.
   */
  lemma ChangeAfterRequest(users: seq<User>, email: string, token: string, newPassword: string, salt: nat) returns (i: nat)
    requires EmailsUnique(users)
    requires Registered(users, email)
    requires HeldByNone(users, token)
    ensures i < |users| && users[i].email == email
    ensures var changed := ChangePassword(RequestReset(users, email, token).1, token, newPassword, salt);
      && changed.0.Ok?
      && |changed.1| == |users|
      && (forall j :: 0 <= j < |users| ==> changed.1[j].email == users[j].email)
      && VerifyPassword(newPassword, changed.1[i].hashedPassword)
      && HeldByNone(changed.1, token)
  {
    var requested := RequestReset(users, email, token).1;
    i := First(users, EmailIs(email)).value;
    assert requested == users[i := users[i].(resetToken := Some(token))];
    assert ResetTokenIs(token)(requested[i]);
    assert forall j :: 0 <= j < |requested| && j != i ==> requested[j] == users[j] && !ResetTokenIs(token)(requested[j]);
    assert First(requested, ResetTokenIs(token)) == Some(i);
    var changed := ChangePassword(requested, token, newPassword, salt);
    assert changed.1 == requested[i := requested[i].(hashedPassword := HashPassword(newPassword, salt), resetToken := None)];
  }

  /**
   * The whole reset flow: a fresh token requested for a registered e-mail lets
   * the password be changed once; afterwards the new password logs in, no
   * password that differs from it within bcrypt's first 72 bytes does, and the
   * token is spent.
   */
  lemma ResetFlow(users: seq<User>, logins: seq<LoginActivity>, email: string, token: string, newPassword: string, salt: nat)
    requires EmailsUnique(users)
    requires Registered(users, email)
    requires HeldByNone(users, token)
    ensures
      var requested := RequestReset(users, email, token).1;
      var changed := ChangePassword(requested, token, newPassword, salt);
      && changed.0.Ok?
      && Login(changed.1, logins, email, newPassword).0.Ok?
      && (forall other :: BcryptKey(other) != BcryptKey(newPassword) ==> Login(changed.1, logins, email, other).0.Err?)
      && ChangePassword(changed.1, token, newPassword, salt).0.Err?
  {
    var i := ChangeAfterRequest(users, email, token, newPassword, salt);
    var after := ChangePassword(RequestReset(users, email, token).1, token, newPassword, salt).1;
    assert EmailsUnique(after);
    assert after[i].email == email;
    forall other | BcryptKey(other) != BcryptKey(newPassword) ensures Login(after, logins, email, other).0.Err? {
      forall j | 0 <= j < |after| && after[j].email == email
        ensures !VerifyPassword(other, after[j].hashedPassword)
      {
        assert j == i;
      }
    }
  }

  /**
   * A successful login is visible in the caller's history: the token it
   * returns resolves to the user who logged in, and that user's history is
   * the previous one plus exactly the new row.
   */
  lemma LoginIsRecorded(users: seq<User>, logins: seq<LoginActivity>, email: string, password: string)
    requires EmailsUnique(users)
    requires Login(users, logins, email, password).0.Ok?
    ensures
      var (reply, after) := Login(users, logins, email, password);
      var token := reply.value.accessToken;
      && CurrentUser(users, token).Ok?
      && VerifyPassword(password, CurrentUser(users, token).value.hashedPassword)
      && LoginHistory(users, logins, token).Ok?
      && after == logins + [LoginActivity(|logins| + 1, CurrentUser(users, token).value.id)]
      && LoginHistory(users, after, token) == Ok(LoginHistory(users, logins, token).value + [after[|logins|]])
  {
    var (reply, after) := Login(users, logins, email, password);
    var token := reply.value.accessToken;
    var i :| 0 <= i < |users| && users[i].email == email && VerifyPassword(password, users[i].hashedPassword)
      && after == logins + [LoginActivity(|logins| + 1, users[i].id)];
    var user := CurrentUser(users, token).value;
    assert user == users[i];
    var row := after[|logins|];
    WhereAppend(logins, [row], LoggedBy(user.id));
    assert LoggedBy(user.id)(row);
    assert Where([row], LoggedBy(user.id)) == [row] + Where([], LoggedBy(user.id));
    assert Where([row], LoggedBy(user.id)) == [row];
    assert Where(after, LoggedBy(user.id)) == Where(logins, LoggedBy(user.id)) + [row];
    assert after == logins + [row];
    assert LoginHistory(users, logins, token) == Ok(Where(logins, LoggedBy(user.id)));
    assert LoginHistory(users, after, token) == Ok(Where(after, LoggedBy(user.id)));
    assert LoginHistory(users, after, token) == Ok(LoginHistory(users, logins, token).value + [after[|logins|]]);
  }
}
