/**
 * Registration, login and logout over the user store.
 *
 * Each handler is specified by a function from the old store to a Step (the outcome and
 * the new store); the UserStore class holds the store and its methods make the same
 * changes in place, step by step, as the handlers do. The lemmas after the class state
 * what the handlers promise about those functions.
 */
module UserController {
  import opened Wrappers
  import opened Text
  import opened EmailPattern
  import opened Crypto
  import opened Http
  import opened UserModel

  /** The request body of registration; an absent JSON field is None. */
  datatype RegisterInput = RegisterInput(
    fullName: Option<string>, email: Option<string>, username: Option<string>, password: Option<string>)

  /** The request body of login. */
  datatype LoginInput = LoginInput(email: Option<string>, username: Option<string>, password: Option<string>)

  /** The data of a successful response. */
  datatype UserData =
    | Registered(user: PublicUser)
    | LoggedIn(user: PublicUser, accessToken: string, refreshToken: string)

  type Users = map<UserId, UserRecord>

  /** A handler's outcome together with the store it leaves behind. */
  datatype Step = Step(outcome: Outcome<UserData>, users: Users, nextId: UserId)

  const MsgAllFieldsRequired := "All fields required"
  const MsgUserExists := "User with email or username already exists"
  const MsgUsernameLength := "Username should be between 4 and 20 characters long"
  const MsgInvalidEmail := "Invalid email address"
  const MsgPasswordLength := "Password should be at least 6 characters long"
  const MsgRegistered := "User register Successfully..."
  const MsgIdentifierRequired := "usernamw or email is required"
  const MsgPasswordRequired := "Password is required"
  const MsgUserNotFound := "User does not exist"
  const MsgInvalidCredentials := "Invalid user credentials"
  const MsgTokenFailure := "Something went wrong while generating refresh and access token"
  const StatusTokenFailure: nat := 501
  const MsgLoggedIn := "User logged In Successfully..."
  const MsgLoggedOut := "User logged Out"

  /** `username.length` and `password.length` on an absent field. */
  const CrashLengthOfUndefined := ReadOfUndefined("length")
  const CrashFullNameRequired := RequiredPath("fullName")
  const CrashDuplicateKey := DuplicateKey
  /** `req.user._id` when the middleware attached null. */
  const CrashNoRequestUser := ReadOfNull("_id")

  /** Every id is below the next one handed out, and no two users share a username or an email. */
  predicate StoreInvariant(users: Users, nextId: UserId) {
    && (forall id :: id in users ==> id < nextId)
    && (forall i, j :: i in users && j in users && i != j ==>
          users[i].username != users[j].username && users[i].email != users[j].email)
  }

  // ---------------------------------------------------------------- lookups

  /**
   * A filter value as Mongoose casts it: through the schema setters (trim, lowercase).
   * An absent value stays absent.
   */
  function QueryKey(f: Option<string>): (r: Option<string>)
    ensures r.Some? <==> f.Some?
    ensures r.Some? ==> ToLower(r.value) == r.value && |r.value| <= |f.value|
  {
    match f
    case None => None
    case Some(s) => Some(NormalizeKey(s))
  }

  /** A stored record matches `$or: [{username: u}, {email: e}]` for cast values u and e; an absent one matches nothing. */
  predicate MatchesKeys(rec: UserRecord, u: Option<string>, e: Option<string>)
    ensures u.None? && e.None? ==> !MatchesKeys(rec, u, e)
    ensures u == Some(rec.username) || e == Some(rec.email) ==> MatchesKeys(rec, u, e)
  {
    (u.Some? && rec.username == u.value) || (e.Some? && rec.email == e.value)
  }

  predicate MatchesIdentifier(rec: UserRecord, username: Option<string>, email: Option<string>) {
    MatchesKeys(rec, QueryKey(username), QueryKey(email))
  }

  /** The first id in [from, bound) whose record matches. */
  function FirstMatch(users: Users, from: nat, bound: nat, u: Option<string>, e: Option<string>)
    : (r: Option<UserId>)
    ensures r.Some? ==> from <= r.value < bound && r.value in users && MatchesKeys(users[r.value], u, e)
    ensures r.Some? ==> forall id :: from <= id < r.value && id in users ==> !MatchesKeys(users[id], u, e)
    ensures r.None? ==> forall id :: from <= id < bound && id in users ==> !MatchesKeys(users[id], u, e)
    decreases bound - from
  {
    if from >= bound then None
    else if from in users && MatchesKeys(users[from], u, e) then Some(from)
    else FirstMatch(users, from + 1, bound, u, e)
  }

  /** User.findOne with `$or: [{username}, {email}]`: the earliest inserted matching user. */
  function FindOne(users: Users, nextId: UserId, username: Option<string>, email: Option<string>)
    : (r: Option<UserId>)
    ensures r.Some? ==> r.value in users && MatchesIdentifier(users[r.value], username, email)
    ensures r.Some? ==> forall id :: id in users && id < r.value ==> !MatchesIdentifier(users[id], username, email)
    ensures r.None? ==> forall id :: id in users && id < nextId ==> !MatchesIdentifier(users[id], username, email)
  {
    FirstMatch(users, 0, nextId, QueryKey(username), QueryKey(email))
  }

  /** The unique indexes reject a record whose username or email is already stored. */
  predicate HasDuplicateKey(users: Users, rec: UserRecord)
    ensures users == map[] ==> !HasDuplicateKey(users, rec)
  {
    exists id :: id in users && (users[id].username == rec.username || users[id].email == rec.email)
  }

  // ---------------------------------------------------------------- registration

  /** `item?.trim() === ""`: a present field that trims to the empty string; an absent field is not blank. */
  predicate IsBlankField(f: Option<string>)
    ensures f == Some("") ==> IsBlankField(f)
    ensures IsBlankField(f) ==> f.Some? && (f.value == "" || IsJsWhitespace(f.value[0]))
  {
    f.Some? && (TrimStartShape(f.value); TrimEndShape(TrimStart(f.value)); Trim(f.value) == "")
  }

  predicate AnyBlank(input: RegisterInput)
    ensures AnyBlank(input) ==> input.fullName.Some? || input.email.Some? || input.username.Some? || input.password.Some?
    ensures input.username == Some("") || input.password == Some("") ==> AnyBlank(input)
  {
    IsBlankField(input.fullName) || IsBlankField(input.email)
    || IsBlankField(input.username) || IsBlankField(input.password)
  }

  predicate UsernameLengthOk(username: string)
    ensures UsernameLengthOk(username) ==> 2 <= |username| <= 20
    ensures 4 <= |username| <= 10 ==> UsernameLengthOk(username)
  {
    4 <= Utf16Length(username) <= 20
  }

  predicate PasswordLengthOk(password: string)
    ensures |password| >= 6 ==> PasswordLengthOk(password)
    ensures PasswordLengthOk(password) ==> |password| >= 3
  {
    Utf16Length(password) >= 6
  }

  /** The document User.create builds before saving: schema setters applied, password still plaintext. */
  function NewRecord(fullName: string, email: string, username: string, password: string): (r: UserRecord)
    ensures r.username == NormalizeKey(username) && r.email == NormalizeKey(email)
    ensures r.fullName == Trim(fullName) && r.password == password && r.refreshToken.None?
  {
    NormalizeKeyAbsorbsLower(username);
    UserRecord(NormalizeKey(ToLower(username)), NormalizeKey(email), NormalizeName(fullName), password, None)
  }

  /** The document User.create saves for a registration: the pre-save hook has hashed the password. */
  function CreatedRecord(input: RegisterInput, p: Primitives): UserRecord
    requires input.fullName.Some? && input.email.Some? && input.username.Some? && input.password.Some?
  {
    PreSave(NewRecord(input.fullName.value, input.email.value, input.username.value, input.password.value),
            true, p.hash)
  }

  /** The reasons registration can end without creating a user, in the order they are checked. */
  datatype RegisterError =
    | BlankField | UserExists | UsernameUndefined | UsernameLength | InvalidEmail
    | PasswordUndefined | PasswordLength | FullNameUndefined | DuplicateKeyError

  /** registerUser's chain of checks: the first one that fails, if any. */
  function RegisterFailure(users: Users, nextId: UserId, input: RegisterInput, p: Primitives)
    : (r: Option<RegisterError>)
    ensures r.None? ==> input.fullName.Some? && input.email.Some? && input.username.Some? && input.password.Some?
  {
    if AnyBlank(input) then Some(BlankField)
    else if FindOne(users, nextId, input.username, input.email).Some? then Some(UserExists)
    else if input.username.None? then Some(UsernameUndefined)
    else if !UsernameLengthOk(input.username.value) then Some(UsernameLength)
    // RegExp.prototype.test turns an absent email into the text "undefined", which fails.
    else if input.email.None? || !IsValidEmail(input.email.value) then Some(InvalidEmail)
    else if input.password.None? then Some(PasswordUndefined)
    else if !PasswordLengthOk(input.password.value) then Some(PasswordLength)
    else if input.fullName.None? then Some(FullNameUndefined)
    else if HasDuplicateKey(users, CreatedRecord(input, p)) then Some(DuplicateKeyError)
    else None
  }

  /** What the handler sends or throws for each failure. */
  function RegisterErrorOutcome(e: RegisterError): Outcome<UserData> {
    match e
    case BlankField => Reply(400, MsgAllFieldsRequired)
    case UserExists => Reply(409, MsgUserExists)
    case UsernameUndefined => Crash(CrashLengthOfUndefined)
    case UsernameLength => Reply(400, MsgUsernameLength)
    case InvalidEmail => Reply(400, MsgInvalidEmail)
    case PasswordUndefined => Crash(CrashLengthOfUndefined)
    case PasswordLength => Reply(400, MsgPasswordLength)
    case FullNameUndefined => Crash(CrashFullNameRequired)
    case DuplicateKeyError => Crash(CrashDuplicateKey)
  }

  /** registerUser: the first failing check decides the outcome; otherwise the user is created. */
  function RegisterStep(users: Users, nextId: UserId, input: RegisterInput, p: Primitives): (r: Step)
    ensures r.nextId == nextId ==> r.users == users
    ensures r.nextId != nextId ==>
      && r.nextId == nextId + 1 && nextId in r.users && r.users == users[nextId := r.users[nextId]]
      && r.outcome.Respond? && r.outcome.status == 201
    ensures r.outcome.Respond? && r.outcome.status == 201 ==> r.nextId == nextId + 1
  {
    match RegisterFailure(users, nextId, input, p)
    case Some(e) => Step(RegisterErrorOutcome(e), users, nextId)
    case None => Created(users, nextId, CreatedRecord(input, p))
  }

  /** A registration the chain stops at failure e answers that failure's outcome and changes nothing. */
  lemma RejectedWith(users: Users, nextId: UserId, input: RegisterInput, p: Primitives, e: RegisterError)
    requires RegisterFailure(users, nextId, input, p) == Some(e)
    ensures RegisterStep(users, nextId, input, p) == Step(RegisterErrorOutcome(e), users, nextId)
  {
  }

  /** The store after inserting rec under the next id, and the 201 reply carrying it. */
  function Created(users: Users, nextId: UserId, rec: UserRecord): Step {
    Step(Respond(201, Envelope(200, Some(Registered(Sanitize(nextId, rec))), MsgRegistered)),
         users[nextId := rec], nextId + 1)
  }

  // ---------------------------------------------------------------- login and tokens

  datatype Issue = Issued(accessToken: string, refreshToken: string, users: Users) | IssueFailed

  /** generateAccessAndRefreshTokens: sign both tokens and store the refresh token, password unmodified. */
  function IssueTokens(users: Users, id: UserId, p: Primitives, s: Secrets): (r: Issue)
    ensures r.IssueFailed? <==> id !in users
    ensures r.Issued? ==>
      && r.users.Keys == users.Keys
      && r.users[id] == users[id].(refreshToken := Some(r.refreshToken))
      && forall other :: other in users && other != id ==> r.users[other] == users[other]
  {
    if id !in users then IssueFailed
    else
      var rec := users[id];
      var refresh := GenerateRefreshToken(p, s, id);
      Issued(GenerateAccessToken(p, s, id, rec), refresh,
             users[id := PreSave(rec.(refreshToken := Some(refresh)), false, p.hash)])
  }

  /** loginUser, first failing check wins. */
  function LoginStep(users: Users, nextId: UserId, input: LoginInput, p: Primitives, s: Secrets): (r: Step)
    ensures r.nextId == nextId && r.users.Keys == users.Keys
    ensures r.outcome.Respond? && r.outcome.status in {200, 400, 401, 404}
    ensures r.outcome.status != 200 ==> r.users == users
  {
    if !(Truthy(input.username) || Truthy(input.email)) then Step(Reply(400, MsgIdentifierRequired), users, nextId)
    else if !Truthy(input.password) then Step(Reply(400, MsgPasswordRequired), users, nextId)
    else match FindOne(users, nextId, input.username, input.email)
      case None => Step(Reply(404, MsgUserNotFound), users, nextId)
      case Some(id) =>
        if !IsPasswordCorrect(p, users[id], input.password.value) then
          Step(Reply(401, MsgInvalidCredentials), users, nextId)
        else match IssueTokens(users, id, p, s)
          case IssueFailed => Step(Raise(StatusTokenFailure, MsgTokenFailure), users, nextId)
          case Issued(access, refresh, users') =>
            Step(Respond(200, Envelope(200, Some(LoggedIn(Sanitize(id, users'[id]), access, refresh)), MsgLoggedIn)),
                 users', nextId)
  }

  // ---------------------------------------------------------------- logout

  /** findByIdAndUpdate with `$unset: {refreshToken}`; an unknown id updates nothing. */
  function UnsetRefreshToken(users: Users, id: UserId): (r: Users)
    ensures r.Keys == users.Keys
    ensures id in users ==> r[id].refreshToken.None? && r[id].(refreshToken := users[id].refreshToken) == users[id]
    ensures forall other :: other in users && other != id ==> r[other] == users[other]
  {
    if id in users then users[id := users[id].(refreshToken := None)] else users
  }

  /** logoutUser for the identity the auth middleware attached (null when no user was found). */
  function LogoutStep(users: Users, nextId: UserId, user: Option<PublicUser>): (r: Step)
    ensures r.nextId == nextId && r.users.Keys == users.Keys
    ensures r.outcome.Respond? <==> user.Some?
    ensures user.Some? && user.value.id in users ==> r.users[user.value.id].refreshToken.None?
  {
    match user
    case None => Step(Crash(CrashNoRequestUser), users, nextId)
    case Some(u) => Step(Respond(200, Envelope(200, None, MsgLoggedOut)), UnsetRefreshToken(users, u.id), nextId)
  }

  // ---------------------------------------------------------------- the store

  class UserStore {
    var users: Users
    var nextId: UserId

    ghost predicate Valid()
      reads this
    {
      StoreInvariant(users, nextId)
    }

    constructor ()
      ensures Valid() && users == map[] && nextId == 0
    {
      users := map[];
      nextId := 0;
    }

    /** User.create: the pre-save hook hashes the new password, then the unique indexes are checked. */
    method Insert(rec: UserRecord, hash: (string, nat) -> string) returns (id: Option<UserId>)
      requires Valid()
      modifies this
      ensures Valid()
      ensures var saved := PreSave(rec, true, hash);
        if HasDuplicateKey(old(users), saved) then id.None? && users == old(users) && nextId == old(nextId)
        else id == Some(old(nextId)) && users == old(users)[old(nextId) := saved] && nextId == old(nextId) + 1
    {
      var saved := PreSave(rec, true, hash);
      if HasDuplicateKey(users, saved) {
        return None;
      }
      id := Some(nextId);
      users := users[nextId := saved];
      nextId := nextId + 1;
    }

    /** document.save() of a record whose username and email are unchanged. */
    method Save(id: UserId, rec: UserRecord, passwordModified: bool, hash: (string, nat) -> string)
      requires Valid() && id in users
      requires rec.username == users[id].username && rec.email == users[id].email
      modifies this
      ensures Valid()
      ensures users == old(users)[id := PreSave(rec, passwordModified, hash)] && nextId == old(nextId)
    {
      users := users[id := PreSave(rec, passwordModified, hash)];
    }

    method GenerateAccessAndRefreshTokens(id: UserId, p: Primitives, s: Secrets)
      returns (access: Option<string>, refresh: Option<string>)
      requires Valid()
      modifies this
      ensures Valid() && nextId == old(nextId)
      ensures match IssueTokens(old(users), id, p, s)
        case IssueFailed => access.None? && refresh.None? && users == old(users)
        case Issued(a, r, users') => access == Some(a) && refresh == Some(r) && users == users'
    {
      if id !in users {
        return None, None;
      }
      var rec := users[id];
      var a := GenerateAccessToken(p, s, id, rec);
      var r := GenerateRefreshToken(p, s, id);
      Save(id, rec.(refreshToken := Some(r)), false, p.hash);
      access, refresh := Some(a), Some(r);
    }

    method RegisterUser(input: RegisterInput, p: Primitives) returns (out: Outcome<UserData>)
      requires Valid()
      modifies this
      ensures Valid()
      ensures var step := RegisterStep(old(users), old(nextId), input, p);
        out == step.outcome && users == step.users && nextId == step.nextId
    {
      if AnyBlank(input) {
        RejectedWith(users, nextId, input, p, BlankField);
        return Reply(400, MsgAllFieldsRequired);
      }
      var existing := FindOne(users, nextId, input.username, input.email);
      if existing.Some? {
        RejectedWith(users, nextId, input, p, UserExists);
        return Reply(409, MsgUserExists);
      }
      out := ValidateAndCreate(input, p);
    }

    /** registerUser after the blank check and the lookup: the username and email checks. */
    method ValidateAndCreate(input: RegisterInput, p: Primitives) returns (out: Outcome<UserData>)
      requires Valid()
      requires !AnyBlank(input) && FindOne(users, nextId, input.username, input.email).None?
      modifies this
      ensures Valid()
      ensures var step := RegisterStep(old(users), old(nextId), input, p);
        out == step.outcome && users == step.users && nextId == step.nextId
    {
      if input.username.None? {
        RejectedWith(users, nextId, input, p, UsernameUndefined);
        return Crash(CrashLengthOfUndefined);
      }
      var username := input.username.value;
      if !UsernameLengthOk(username) {
        RejectedWith(users, nextId, input, p, UsernameLength);
        return Reply(400, MsgUsernameLength);
      }
      if input.email.None? || !IsValidEmail(input.email.value) {
        RejectedWith(users, nextId, input, p, InvalidEmail);
        return Reply(400, MsgInvalidEmail);
      }
      out := CheckPasswordAndCreate(input, p);
    }

    /** registerUser after the username and email checks: the password and fullName checks, then User.create. */
    method CheckPasswordAndCreate(input: RegisterInput, p: Primitives) returns (out: Outcome<UserData>)
      requires Valid()
      requires !AnyBlank(input) && FindOne(users, nextId, input.username, input.email).None?
      requires input.username.Some? && UsernameLengthOk(input.username.value)
      requires input.email.Some? && IsValidEmail(input.email.value)
      modifies this
      ensures Valid()
      ensures var step := RegisterStep(old(users), old(nextId), input, p);
        out == step.outcome && users == step.users && nextId == step.nextId
    {
      if input.password.None? {
        RejectedWith(users, nextId, input, p, PasswordUndefined);
        return Crash(CrashLengthOfUndefined);
      }
      if !PasswordLengthOk(input.password.value) {
        RejectedWith(users, nextId, input, p, PasswordLength);
        return Reply(400, MsgPasswordLength);
      }
      if input.fullName.None? {
        RejectedWith(users, nextId, input, p, FullNameUndefined);
        return Crash(CrashFullNameRequired);
      }
      ghost var before, next := users, nextId;
      var rec := NewRecord(input.fullName.value, input.email.value, input.username.value, input.password.value);
      assert PreSave(rec, true, p.hash) == CreatedRecord(input, p);
      assert RegisterFailure(users, nextId, input, p)
          == if HasDuplicateKey(users, CreatedRecord(input, p)) then Some(DuplicateKeyError) else None;
      var created := Insert(rec, p.hash);
      if created.None? {
        RejectedWith(before, next, input, p, DuplicateKeyError);
        return Crash(CrashDuplicateKey);
      }
      assert RegisterFailure(before, next, input, p) == None;
      var id := created.value;
      out := Respond(201, Envelope(200, Some(Registered(Sanitize(id, users[id]))), MsgRegistered));
    }

    method LoginUser(input: LoginInput, p: Primitives, s: Secrets) returns (out: Outcome<UserData>)
      requires Valid()
      modifies this
      ensures Valid()
      ensures var step := LoginStep(old(users), old(nextId), input, p, s);
        out == step.outcome && users == step.users && nextId == step.nextId
    {
      if !(Truthy(input.username) || Truthy(input.email)) {
        return Reply(400, MsgIdentifierRequired);
      }
      if !Truthy(input.password) {
        return Reply(400, MsgPasswordRequired);
      }
      var found := FindOne(users, nextId, input.username, input.email);
      if found.None? {
        return Reply(404, MsgUserNotFound);
      }
      var id := found.value;
      if !IsPasswordCorrect(p, users[id], input.password.value) {
        return Reply(401, MsgInvalidCredentials);
      }
      var access, refresh := GenerateAccessAndRefreshTokens(id, p, s);
      if access.None? || refresh.None? {
        return Raise(StatusTokenFailure, MsgTokenFailure);
      }
      out := Respond(200, Envelope(200, Some(LoggedIn(Sanitize(id, users[id]), access.value, refresh.value)),
                                   MsgLoggedIn));
    }

    method LogoutUser(user: Option<PublicUser>) returns (out: Outcome<UserData>)
      requires Valid()
      modifies this
      ensures Valid()
      ensures var step := LogoutStep(old(users), old(nextId), user);
        out == step.outcome && users == step.users && nextId == step.nextId
    {
      if user.None? {
        return Crash(CrashNoRequestUser);
      }
      var id := user.value.id;
      if id in users {
        users := users[id := users[id].(refreshToken := None)];
      }
      out := Respond(200, Envelope(200, None, MsgLoggedOut));
    }
  }
}
