/**
 * What registerUser promises: each check of the chain rejects exactly the inputs it
 * names, in order; an accepted registration stores one normalised record with a hashed
 * password; the username/email check makes the unique indexes' error unreachable; and
 * the store invariant is kept.
 */
module Registration {
  import opened Wrappers
  import opened Text
  import opened EmailPattern
  import opened Crypto
  import opened Http
  import opened UserModel
  import opened UserController

  /** Some stored user has the requested username or email (after the schema's casting). */
  predicate Conflicts(users: Users, input: RegisterInput) {
    exists id :: id in users && MatchesIdentifier(users[id], input.username, input.email)
  }

  /** Everything registerUser checks passes. */
  ghost predicate Acceptable(users: Users, input: RegisterInput) {
    && !AnyBlank(input) && !Conflicts(users, input)
    && input.fullName.Some? && input.email.Some? && input.username.Some? && input.password.Some?
    && UsernameLengthOk(input.username.value)
    && MatchesPattern(input.email.value)
    && PasswordLengthOk(input.password.value)
  }

  /** The record an accepted registration stores. */
  function StoredRecord(input: RegisterInput, p: Primitives): UserRecord
    requires input.fullName.Some? && input.email.Some? && input.username.Some? && input.password.Some?
  {
    UserRecord(NormalizeKey(input.username.value), NormalizeKey(input.email.value),
               Trim(input.fullName.value), p.hash(input.password.value, SaltRounds), None)
  }

  lemma FindOneFindsConflict(users: Users, nextId: UserId, input: RegisterInput)
    requires StoreInvariant(users, nextId)
    ensures FindOne(users, nextId, input.username, input.email).Some? <==> Conflicts(users, input)
  {
    if Conflicts(users, input) {
      var id :| id in users && MatchesIdentifier(users[id], input.username, input.email);
      assert id < nextId;
    }
  }

  /** A field is blank exactly when it is present and consists of whitespace only; an absent field never is. */
  lemma BlankFieldIsWhitespace(f: Option<string>)
    ensures IsBlankField(f) <==> f.Some? && AllWhitespace(f.value)
  {
    if f.Some? {
      TrimEmptyIffAllWhitespace(f.value);
    }
  }

  /** No two failures produce the same reply, except the two undefined-field crashes; none is a 201. */
  lemma ErrorOutcomesDistinct(e1: RegisterError, e2: RegisterError)
    ensures RegisterErrorOutcome(e1) == RegisterErrorOutcome(e2) ==>
      e1 == e2 || ({e1, e2} == {UsernameUndefined, PasswordUndefined})
    ensures !(RegisterErrorOutcome(e1).Respond? && RegisterErrorOutcome(e1).status == 201)
  {
    assert |MsgUsernameLength| == 51 && |MsgInvalidEmail| == 21 && |MsgPasswordLength| == 45;
  }

  /** For a failure with its own reply, the handler gives that reply exactly when the chain stops there. */
  lemma OutcomeIdentifiesFailure(users: Users, nextId: UserId, input: RegisterInput, p: Primitives, e: RegisterError)
    requires e != UsernameUndefined && e != PasswordUndefined
    ensures RegisterStep(users, nextId, input, p).outcome == RegisterErrorOutcome(e)
            <==> RegisterFailure(users, nextId, input, p) == Some(e)
  {
    match RegisterFailure(users, nextId, input, p)
    case Some(f) => ErrorOutcomesDistinct(e, f);
    case None => ErrorOutcomesDistinct(e, e);
  }

  /** The first check: 400 "All fields required" exactly when some present field is blank. */
  lemma BlankFieldsRejected(users: Users, nextId: UserId, input: RegisterInput, p: Primitives)
    ensures RegisterStep(users, nextId, input, p).outcome == Reply(400, MsgAllFieldsRequired) <==> AnyBlank(input)
  {
    OutcomeIdentifiesFailure(users, nextId, input, p, BlankField);
  }

  /** The second check: 409 exactly when no field is blank and a stored user has the username or the email. */
  lemma ConflictRejected(users: Users, nextId: UserId, input: RegisterInput, p: Primitives)
    requires StoreInvariant(users, nextId)
    ensures RegisterStep(users, nextId, input, p).outcome == Reply(409, MsgUserExists)
            <==> !AnyBlank(input) && Conflicts(users, input)
  {
    OutcomeIdentifiesFailure(users, nextId, input, p, UserExists);
    FindOneFindsConflict(users, nextId, input);
  }

  /** The third check, on the raw username: 400 exactly when its length is outside 4..20. */
  lemma UsernameLengthRejected(users: Users, nextId: UserId, input: RegisterInput, p: Primitives)
    requires StoreInvariant(users, nextId)
    requires !AnyBlank(input) && !Conflicts(users, input) && input.username.Some?
    ensures RegisterStep(users, nextId, input, p).outcome == Reply(400, MsgUsernameLength)
            <==> !(4 <= Utf16Length(input.username.value) <= 20)
  {
    OutcomeIdentifiesFailure(users, nextId, input, p, UsernameLength);
    FindOneFindsConflict(users, nextId, input);
  }

  /** The fourth check: 400 exactly when the email is absent or the regular expression does not match it. */
  lemma EmailRejected(users: Users, nextId: UserId, input: RegisterInput, p: Primitives)
    requires StoreInvariant(users, nextId)
    requires !AnyBlank(input) && !Conflicts(users, input)
    requires input.username.Some? && UsernameLengthOk(input.username.value)
    ensures RegisterStep(users, nextId, input, p).outcome == Reply(400, MsgInvalidEmail)
            <==> !(input.email.Some? && MatchesPattern(input.email.value))
  {
    OutcomeIdentifiesFailure(users, nextId, input, p, InvalidEmail);
    FindOneFindsConflict(users, nextId, input);
    if input.email.Some? {
      EmailCheckMatchesPattern(input.email.value);
    }
  }

  /** The fifth check, on the raw password: 400 exactly when it is shorter than 6. */
  lemma PasswordLengthRejected(users: Users, nextId: UserId, input: RegisterInput, p: Primitives)
    requires StoreInvariant(users, nextId)
    requires !AnyBlank(input) && !Conflicts(users, input)
    requires input.username.Some? && UsernameLengthOk(input.username.value)
    requires input.email.Some? && MatchesPattern(input.email.value)
    requires input.password.Some?
    ensures RegisterStep(users, nextId, input, p).outcome == Reply(400, MsgPasswordLength)
            <==> Utf16Length(input.password.value) < 6
  {
    OutcomeIdentifiesFailure(users, nextId, input, p, PasswordLength);
    FindOneFindsConflict(users, nextId, input);
    EmailCheckMatchesPattern(input.email.value);
  }

  /**
   * The handler throws (a TypeError reading `length` of an absent username or password, or
   * the schema's ValidationError for an absent full name) exactly when the checks before
   * reach an absent field; the duplicate-key error is never among them.
   */
  lemma AbsentFieldCrashes(users: Users, nextId: UserId, input: RegisterInput, p: Primitives)
    requires StoreInvariant(users, nextId)
    ensures RegisterStep(users, nextId, input, p).outcome.Crash? <==>
      && !AnyBlank(input) && !Conflicts(users, input)
      && (|| input.username.None?
          || (&& UsernameLengthOk(input.username.value)
              && input.email.Some? && MatchesPattern(input.email.value)
              && (|| input.password.None?
                  || (PasswordLengthOk(input.password.value) && input.fullName.None?))))
    ensures RegisterStep(users, nextId, input, p).outcome.Crash? ==>
      RegisterStep(users, nextId, input, p).outcome.reason != CrashDuplicateKey
  {
    FindOneFindsConflict(users, nextId, input);
    if input.email.Some? {
      EmailCheckMatchesPattern(input.email.value);
    }
    NoDuplicateAfterChecks(users, nextId, input, p);
    var f := RegisterFailure(users, nextId, input, p);
    if f.Some? {
      RejectedWith(users, nextId, input, p, f.value);
      ThrowingFailures(f.value);
    }
  }

  /** The failures the handler throws at rather than replies to. */
  lemma ThrowingFailures(e: RegisterError)
    ensures RegisterErrorOutcome(e).Crash? <==>
      e == UsernameUndefined || e == PasswordUndefined || e == FullNameUndefined || e == DuplicateKeyError
    ensures RegisterErrorOutcome(e) == Crash(CrashDuplicateKey) <==> e == DuplicateKeyError
  {
  }

  /** Once the username/email lookup found nothing, the record to insert collides with no stored key. */
  lemma NoDuplicateAfterChecks(users: Users, nextId: UserId, input: RegisterInput, p: Primitives)
    requires StoreInvariant(users, nextId)
    ensures RegisterFailure(users, nextId, input, p) != Some(DuplicateKeyError)
  {
    FindOneFindsConflict(users, nextId, input);
    if input.fullName.Some? && input.email.Some? && input.username.Some? && input.password.Some?
       && !Conflicts(users, input)
    {
      var rec := CreatedRecord(input, p);
      NormalizeKeyAbsorbsLower(input.username.value);
      forall id | id in users
        ensures users[id].username != rec.username && users[id].email != rec.email
      {
        assert !MatchesIdentifier(users[id], input.username, input.email);
      }
    }
  }

  /**
   * Registration succeeds (HTTP 201, envelope code 200) exactly when every check passes;
   * it then stores the trimmed, lowercased username and email, the trimmed full name and
   * the hashed password under a fresh id, with no refresh token, and returns that record
   * without password and refresh token.
   */
  lemma AcceptedRegistrationStoresRecord(users: Users, nextId: UserId, input: RegisterInput, p: Primitives)
    requires StoreInvariant(users, nextId)
    ensures var step := RegisterStep(users, nextId, input, p);
      (step.outcome.Respond? && step.outcome.status == 201) <==> Acceptable(users, input)
    ensures Acceptable(users, input) ==>
      var step := RegisterStep(users, nextId, input, p);
      var rec := StoredRecord(input, p);
      && step.users == users[nextId := rec] && step.nextId == nextId + 1
      && nextId !in users
      && step.outcome == Respond(201, Envelope(200, Some(Registered(Sanitize(nextId, rec))), MsgRegistered))
  {
    FindOneFindsConflict(users, nextId, input);
    NoDuplicateAfterChecks(users, nextId, input, p);
    if input.email.Some? {
      EmailCheckMatchesPattern(input.email.value);
    }
    match RegisterFailure(users, nextId, input, p)
    case Some(e) => ErrorOutcomesDistinct(e, e);
    case None =>
      NormalizeKeyAbsorbsLower(input.username.value);
      assert CreatedRecord(input, p) == StoredRecord(input, p);
  }

  /** The username/email check runs first, so the unique indexes never reject the insert. */
  lemma UniqueIndexNeverRejects(users: Users, nextId: UserId, input: RegisterInput, p: Primitives)
    requires StoreInvariant(users, nextId)
    ensures RegisterStep(users, nextId, input, p).outcome != Crash(CrashDuplicateKey)
  {
    NoDuplicateAfterChecks(users, nextId, input, p);
  }

  /** Every rejected registration leaves the store as it was. */
  lemma RejectedRegistrationChangesNothing(users: Users, nextId: UserId, input: RegisterInput, p: Primitives)
    ensures var step := RegisterStep(users, nextId, input, p);
      !(step.outcome.Respond? && step.outcome.status == 201) ==> step.users == users && step.nextId == nextId
  {
  }

  /** Registration keeps every id below the next one and every username and email unique. */
  lemma RegisterPreservesInvariant(users: Users, nextId: UserId, input: RegisterInput, p: Primitives)
    requires StoreInvariant(users, nextId)
    ensures var step := RegisterStep(users, nextId, input, p); StoreInvariant(step.users, step.nextId)
  {
    if RegisterFailure(users, nextId, input, p).None? {
      var rec := CreatedRecord(input, p);
      assert !HasDuplicateKey(users, rec);
      assert forall id :: id in users ==> users[id].username != rec.username && users[id].email != rec.email;
    }
  }

  /** With bcrypt's guarantee, the password given at registration verifies against the stored digest. */
  lemma RegisteredPasswordVerifies(users: Users, nextId: UserId, input: RegisterInput, p: Primitives)
    requires StoreInvariant(users, nextId) && CompareAcceptsHash(p)
    requires Acceptable(users, input)
    ensures var step := RegisterStep(users, nextId, input, p);
      nextId in step.users && IsPasswordCorrect(p, step.users[nextId], input.password.value)
  {
    AcceptedRegistrationStoresRecord(users, nextId, input, p);
  }

  /**
   * The length check reads the raw username, which the schema then trims: "  ab  " has
   * length 6 and passes, but the stored username "ab" has length 2.
   */
  lemma RawLengthCheckAdmitsShortStoredName()
    ensures UsernameLengthOk("  ab  ")
    ensures NormalizeKey("  ab  ") == "ab" && Utf16Length(NormalizeKey("  ab  ")) == 2
  {
    assert TrimStart("  ab  ") == "ab  " by {
      assert "  ab  "[1..] == " ab  ";
      assert " ab  "[1..] == "ab  ";
    }
    assert TrimEnd("ab  ") == "ab" by {
      assert "ab  "[..3] == "ab ";
      assert "ab "[..2] == "ab";
    }
    assert ToLower("ab") == "ab";
  }

  /** A second registration that reuses a stored email, under any username, is rejected with 409 and changes nothing. */
  lemma SecondRegistrationWithSameEmailConflicts(
    users: Users, nextId: UserId, first: RegisterInput, second: RegisterInput, p: Primitives)
    requires StoreInvariant(users, nextId) && Acceptable(users, first)
    requires !AnyBlank(second) && second.email.Some? && NormalizeKey(second.email.value) == NormalizeKey(first.email.value)
    ensures var s1 := RegisterStep(users, nextId, first, p);
      var s2 := RegisterStep(s1.users, s1.nextId, second, p);
      && s2.outcome == Reply(409, MsgUserExists)
      && s2.users == s1.users && s2.nextId == s1.nextId
      && s1.users == users[nextId := StoredRecord(first, p)]
  {
    AcceptedRegistrationStoresRecord(users, nextId, first, p);
    RegisterPreservesInvariant(users, nextId, first, p);
    var s1 := RegisterStep(users, nextId, first, p);
    var rec := StoredRecord(first, p);
    assert s1.users == users[nextId := rec] && s1.nextId == nextId + 1;
    assert nextId in s1.users && s1.users[nextId] == rec;
    assert MatchesIdentifier(s1.users[nextId], second.username, second.email);
    assert Conflicts(s1.users, second);
    ConflictRejected(s1.users, s1.nextId, second, p);
    RejectedRegistrationChangesNothing(s1.users, s1.nextId, second, p);
  }

  /** The body the registration test in the repository sends. */
  const SampleInput := RegisterInput(Some("234 Doe"), Some("ewr@example.com"), Some("dfsggfd"), Some("123445"))

  lemma NotBlank(s: string)
    requires s != [] && !IsJsWhitespace(s[0])
    ensures !IsBlankField(Some(s))
  {
    BlankFieldIsWhitespace(Some(s));
  }

  /** The test's seven-character username and six-character password pass the length checks. */
  lemma SampleLengthsPass()
    ensures UsernameLengthOk("dfsggfd") && PasswordLengthOk("123445")
  {
    Utf16LengthOfBmp("dfsggfd");
    Utf16LengthOfBmp("123445");
  }

  lemma SampleEmailMatches()
    ensures MatchesPattern("ewr@example.com")
  {
    var e := "ewr@example.com";
    assert e[..3] == "ewr" && e[4..11] == "example" && e[12..] == "com";
    assert MatchesAt(e, 3, 11);
  }

  lemma SampleAcceptable()
    ensures Acceptable(map[], SampleInput)
  {
    NotBlank("234 Doe");
    NotBlank("ewr@example.com");
    NotBlank("dfsggfd");
    NotBlank("123445");
    SampleLengthsPass();
    SampleEmailMatches();
  }

  /** The registration the repository's test sends into an empty store is created with 201. */
  lemma SampleRegistrationCreated(p: Primitives)
    ensures var step := RegisterStep(map[], 0, SampleInput, p);
      step.outcome.Respond? && step.outcome.status == 201 && step.users.Keys == {0}
  {
    SampleAcceptable();
    AcceptedRegistrationStoresRecord(map[], 0, SampleInput, p);
  }
}
