/**
 * What loginUser and logoutUser promise: which request each check rejects, that a login
 * writes nothing but the one refresh token, that the tokens it returns decode to the
 * user's claims, that logout clears exactly that token, and that a user who registered
 * can log in with the same credentials.
 */
module Session {
  import opened Wrappers
  import opened Text
  import opened Crypto
  import opened Http
  import opened UserModel
  import opened UserController
  import opened Registration

  /** Some stored user matches the username or the email of a login request. */
  predicate KnownUser(users: Users, input: LoginInput) {
    exists id :: id in users && MatchesIdentifier(users[id], input.username, input.email)
  }

  lemma FindOneFindsKnownUser(users: Users, nextId: UserId, input: LoginInput)
    requires StoreInvariant(users, nextId)
    ensures FindOne(users, nextId, input.username, input.email).Some? <==> KnownUser(users, input)
  {
    if KnownUser(users, input) {
      var id :| id in users && MatchesIdentifier(users[id], input.username, input.email);
      assert id < nextId;
    }
  }

  /** The first check: 400 exactly when neither a username nor an email is given (absent or ""). */
  lemma LoginIdentifierRequired(users: Users, nextId: UserId, input: LoginInput, p: Primitives, s: Secrets)
    ensures LoginStep(users, nextId, input, p, s).outcome == Reply(400, MsgIdentifierRequired)
            <==> !Truthy(input.username) && !Truthy(input.email)
  {
    assert |MsgIdentifierRequired| != |MsgPasswordRequired|;
  }

  /** The second check: 400 exactly when the password is absent or "". */
  lemma LoginPasswordRequired(users: Users, nextId: UserId, input: LoginInput, p: Primitives, s: Secrets)
    requires Truthy(input.username) || Truthy(input.email)
    ensures LoginStep(users, nextId, input, p, s).outcome == Reply(400, MsgPasswordRequired)
            <==> !Truthy(input.password)
  {
  }

  /** The lookup: 404 exactly when no stored user has the (cast) username or email. */
  lemma LoginUnknownUser(users: Users, nextId: UserId, input: LoginInput, p: Primitives, s: Secrets)
    requires StoreInvariant(users, nextId)
    requires (Truthy(input.username) || Truthy(input.email)) && Truthy(input.password)
    ensures LoginStep(users, nextId, input, p, s).outcome == Reply(404, MsgUserNotFound)
            <==> !KnownUser(users, input)
  {
    FindOneFindsKnownUser(users, nextId, input);
  }

  /** The password check, against the earliest matching user: 401 exactly when bcrypt rejects the candidate. */
  lemma LoginWrongPassword(users: Users, nextId: UserId, input: LoginInput, p: Primitives, s: Secrets, id: UserId)
    requires (Truthy(input.username) || Truthy(input.email)) && Truthy(input.password)
    requires FindOne(users, nextId, input.username, input.email) == Some(id)
    ensures LoginStep(users, nextId, input, p, s).outcome == Reply(401, MsgInvalidCredentials)
            <==> !IsPasswordCorrect(p, users[id], input.password.value)
  {
  }

  /**
   * A login that passes every check answers 200 with the user (without password and
   * refresh token) and both tokens, and stores the new refresh token in that user's record.
   */
  lemma LoginSuccess(users: Users, nextId: UserId, input: LoginInput, p: Primitives, s: Secrets, id: UserId)
    requires (Truthy(input.username) || Truthy(input.email)) && Truthy(input.password)
    requires FindOne(users, nextId, input.username, input.email) == Some(id)
    requires IsPasswordCorrect(p, users[id], input.password.value)
    ensures var step := LoginStep(users, nextId, input, p, s);
      var refresh := GenerateRefreshToken(p, s, id);
      && step.users == users[id := users[id].(refreshToken := Some(refresh))]
      && step.nextId == nextId
      && step.outcome == Respond(200, Envelope(200,
           Some(LoggedIn(Sanitize(id, users[id]), GenerateAccessToken(p, s, id, users[id]), refresh)),
           MsgLoggedIn))
  {
  }

  /**
   * With a signer and a save that never throw (as Primitives models them), the user found
   * always exists, so the 501 "went wrong while generating tokens" error cannot occur; in
   * the source it does occur when jwt.sign throws, for instance on an empty secret.
   */
  lemma LoginNeverFailsToIssue(users: Users, nextId: UserId, input: LoginInput, p: Primitives, s: Secrets)
    ensures LoginStep(users, nextId, input, p, s).outcome != Raise(StatusTokenFailure, MsgTokenFailure)
  {
  }

  /** A login adds and removes no user and changes no field other than one user's refresh token. */
  lemma LoginWritesOnlyRefreshToken(users: Users, nextId: UserId, input: LoginInput, p: Primitives, s: Secrets)
    ensures var step := LoginStep(users, nextId, input, p, s);
      && step.nextId == nextId && step.users.Keys == users.Keys
      && forall id :: id in users ==> step.users[id] == users[id].(refreshToken := step.users[id].refreshToken)
  {
  }

  /** Only a successful login changes the store. */
  lemma FailedLoginChangesNothing(users: Users, nextId: UserId, input: LoginInput, p: Primitives, s: Secrets)
    ensures var step := LoginStep(users, nextId, input, p, s);
      !(step.outcome.Respond? && step.outcome.status == 200) ==> step.users == users
  {
  }

  /** Login keeps every id below the next one and every username and email unique. */
  lemma LoginPreservesInvariant(users: Users, nextId: UserId, input: LoginInput, p: Primitives, s: Secrets)
    requires StoreInvariant(users, nextId)
    ensures var step := LoginStep(users, nextId, input, p, s); StoreInvariant(step.users, step.nextId)
  {
    LoginWritesOnlyRefreshToken(users, nextId, input, p, s);
  }

  /**
   * With a signing library whose verify inverts sign, the access token of a successful
   * login decodes to exactly the responding user's id, username, email and full name, and
   * the refresh token, which
   * is also the one stored, decodes to that id alone.
   */
  lemma LoginTokensDecode(users: Users, nextId: UserId, input: LoginInput, p: Primitives, s: Secrets)
    requires VerifyInvertsSign(p)
    ensures var step := LoginStep(users, nextId, input, p, s);
      step.outcome.Respond? && step.outcome.status == 200 ==>
        && step.outcome.body.data.Some? && step.outcome.body.data.value.LoggedIn?
        && var data := step.outcome.body.data.value;
           var access := p.verify(data.accessToken, s.accessSecret);
           var refresh := p.verify(data.refreshToken, s.refreshSecret);
           && access.Decoded? && access.claims.Keys == {"_id", "username", "email", "fullName"}
           && access.claims["_id"] == IdClaim(data.user.id)
           && access.claims["username"] == TextClaim(data.user.username)
           && access.claims["email"] == TextClaim(data.user.email)
           && access.claims["fullName"] == TextClaim(data.user.fullName)
           && refresh.Decoded? && refresh.claims == map["_id" := IdClaim(data.user.id)]
           && data.user.id in step.users && step.users[data.user.id].refreshToken == Some(data.refreshToken)
  {
    var step := LoginStep(users, nextId, input, p, s);
    if step.outcome.Respond? && step.outcome.status == 200 {
      var id := FindOne(users, nextId, input.username, input.email).value;
      AccessTokenDecodes(p, s, id, users[id]);
      RefreshTokenDecodes(p, s, id);
      assert p.verify(GenerateRefreshToken(p, s, id), s.refreshSecret) == Decoded(RefreshClaims(id));
    }
  }

  // ---------------------------------------------------------------- logout

  /** Logout answers 200 and clears the refresh token of the attached user, changing nothing else; a null user throws. */
  lemma LogoutUnsetsOnlyToken(users: Users, nextId: UserId, user: Option<PublicUser>)
    ensures var step := LogoutStep(users, nextId, user);
      && step.nextId == nextId && step.users.Keys == users.Keys
      && (user.None? <==> step.outcome == Crash(CrashNoRequestUser))
      && (user.None? ==> step.users == users)
      && (user.Some? ==>
            && step.outcome == Respond(200, Envelope(200, None, MsgLoggedOut))
            && (user.value.id in users ==> step.users[user.value.id].refreshToken.None?)
            && forall id :: id in users ==>
                 step.users[id] == (if id == user.value.id then users[id].(refreshToken := None) else users[id]))
  {
  }

  /** Logging out twice is logging out once. */
  lemma LogoutIdempotent(users: Users, nextId: UserId, user: Option<PublicUser>)
    ensures var once := LogoutStep(users, nextId, user);
      LogoutStep(once.users, once.nextId, user) == once
  {
    if user.Some? && user.value.id in users {
      var id := user.value.id;
      var once := users[id := users[id].(refreshToken := None)];
      assert once[id := once[id].(refreshToken := None)] == once;
    }
  }

  lemma LogoutPreservesInvariant(users: Users, nextId: UserId, user: Option<PublicUser>)
    requires StoreInvariant(users, nextId)
    ensures var step := LogoutStep(users, nextId, user); StoreInvariant(step.users, step.nextId)
  {
    LogoutUnsetsOnlyToken(users, nextId, user);
  }

  /**
   * Logout does not lock anyone out: a login after logout has exactly the outcome it would
   * have had before, with the same user and the same two tokens when it succeeds.
   */
  lemma LoginAfterLogout(users: Users, nextId: UserId, user: PublicUser, input: LoginInput, p: Primitives, s: Secrets)
    requires StoreInvariant(users, nextId)
    ensures var out := LogoutStep(users, nextId, Some(user));
      var after := LoginStep(out.users, out.nextId, input, p, s);
      var before := LoginStep(users, nextId, input, p, s);
      after.outcome == before.outcome
  {
    var out := LogoutStep(users, nextId, Some(user));
    var u, e := QueryKey(input.username), QueryKey(input.email);
    SameKeysSameMatch(users, out.users, 0, nextId, u, e);
    var found := FindOne(users, nextId, input.username, input.email);
    if (Truthy(input.username) || Truthy(input.email)) && Truthy(input.password) && found.Some? {
      var id := found.value;
      assert out.users[id].password == users[id].password;
      IssueAfterUnset(users, user.id, id, p, s);
    }
  }

  /** Unsetting a refresh token changes neither token issued afterwards, nor the profile of the user they are issued to. */
  lemma IssueAfterUnset(users: Users, unset: UserId, id: UserId, p: Primitives, s: Secrets)
    requires id in users
    ensures var before := IssueTokens(users, id, p, s);
      var after := IssueTokens(UnsetRefreshToken(users, unset), id, p, s);
      && after.Issued? && before.Issued?
      && after.accessToken == before.accessToken && after.refreshToken == before.refreshToken
      && Sanitize(id, after.users[id]) == Sanitize(id, before.users[id])
  {
    var cleared := UnsetRefreshToken(users, unset);
    assert AccessClaims(id, cleared[id]) == AccessClaims(id, users[id]);
  }

  /** Two stores with the same ids, usernames and emails answer every lookup alike. */
  lemma {:induction false} SameKeysSameMatch(a: Users, b: Users, from: nat, bound: nat, u: Option<string>, e: Option<string>)
    requires a.Keys == b.Keys
    requires forall id :: id in a ==> a[id].username == b[id].username && a[id].email == b[id].email
    ensures FirstMatch(a, from, bound, u, e) == FirstMatch(b, from, bound, u, e)
    decreases bound - from
  {
    if from < bound {
      SameKeysSameMatch(a, b, from + 1, bound, u, e);
    }
  }

  // ---------------------------------------------------------------- register, then log in

  /**
   * A user who registered can log in by the same username and password (given bcrypt's
   * guarantee): the reply is 200 with the stored user, and only its refresh token changes.
   */
  lemma RegisteredUserCanLogIn(users: Users, nextId: UserId, reg: RegisterInput, p: Primitives, s: Secrets)
    requires StoreInvariant(users, nextId) && CompareAcceptsHash(p)
    requires Acceptable(users, reg)
    ensures var s1 := RegisterStep(users, nextId, reg, p);
      var login := LoginInput(reg.email, reg.username, reg.password);
      var s2 := LoginStep(s1.users, s1.nextId, login, p, s);
      && s2.outcome.Respond? && s2.outcome.status == 200
      && s2.outcome.body.data == Some(LoggedIn(Sanitize(nextId, StoredRecord(reg, p)),
           GenerateAccessToken(p, s, nextId, StoredRecord(reg, p)), GenerateRefreshToken(p, s, nextId)))
  {
    AcceptedRegistrationStoresRecord(users, nextId, reg, p);
    RegisterPreservesInvariant(users, nextId, reg, p);
    var rec := StoredRecord(reg, p);
    var users1 := users[nextId := rec];
    var login := LoginInput(reg.email, reg.username, reg.password);
    // Neither the username nor the password is "": the first is not blank, the second is six long.
    BlankFieldIsWhitespace(reg.username);
    assert Truthy(reg.username);
    assert Truthy(reg.password);
    // The earliest user with that username is the new one: usernames are unique.
    var found := FirstMatch(users1, 0, nextId + 1, QueryKey(reg.username), QueryKey(reg.email));
    assert MatchesKeys(users1[nextId], QueryKey(reg.username), QueryKey(reg.email));
    assert found == Some(nextId);
    HashedPasswordVerifies(p, UserRecord(rec.username, rec.email, rec.fullName, reg.password.value, None));
    LoginSuccess(users1, nextId + 1, login, p, s, nextId);
  }
}
