/**
 * The access-token gate verifyJWT: take the token from the accessToken cookie or the
 * Authorization header, verify it with the access secret, look the user up by the id
 * claim and attach the result to the request.
 *
 * The handler reads the claim `id`, but the tokens the user model signs carry `_id`;
 * Authenticate takes the claim key as a parameter so that both the gate as written
 * (AsWrittenIdClaimKey) and the evidently intended gate (IdClaimKey) are stated; the
 * Request class takes the key as well.
 */
module AuthMiddleware {
  import opened Wrappers
  import opened Text
  import opened Crypto
  import opened Http
  import opened UserModel
  import opened UserController

  const BearerPrefix := "Bearer "
  /** The claim the middleware reads. */
  const AsWrittenIdClaimKey := "id"
  /** The claim the tokens carry. */
  const IdClaimKey := "_id"

  const MsgUnauthorized := "Unauthorized request"
  const MsgInvalidToken := "Invalid Access Token"

  /** `req.cookies?.accessToken || req.header("Authorization")?.replace("Bearer ", "")`. */
  function ExtractToken(cookie: Option<string>, authorization: Option<string>): (r: Option<string>)
    ensures Truthy(cookie) ==> r == cookie
    ensures !Truthy(cookie) ==> (r.Some? <==> authorization.Some?)
  {
    if Truthy(cookie) then cookie
    else match authorization
      case None => None
      case Some(header) => Some(ReplaceFirst(header, BearerPrefix, ""))
  }

  /** How the gate ends: next() with the looked-up user (null when none), or an ApiError. */
  datatype GateOutcome =
    | Proceed(user: Option<PublicUser>)
    | Unauthorized(status: nat, message: string)

  /** The message of the CastError findById throws for a claim that is not an ObjectId. */
  function CastMessage(value: string): string {
    "Cast to ObjectId failed for value \"" + value + "\" at path \"_id\" for model \"User\""
  }

  /** User.findById(v).select("-password -refreshToken"): the user without secrets, or null. */
  function FindById(users: Users, id: UserId): (r: Option<PublicUser>)
    ensures r.Some? <==> id in users
    ensures r.Some? ==> r.value.id == id && r.value == Sanitize(id, users[id])
  {
    if id in users then Some(Sanitize(id, users[id])) else None
  }

  /**
   * verifyJWT reading the id from claim `key`. Every exception inside the try block,
   * the verifier's and the CastError of the lookup alike, is rethrown as a 401 carrying
   * its message, or "Invalid Access Token" when the message is empty.
   */
  function Authenticate(key: string, users: Users, cookie: Option<string>, authorization: Option<string>,
                        p: Primitives, s: Secrets): (g: GateOutcome)
    ensures g.Unauthorized? ==> g.status == 401 && g.message != ""
  {
    var token := ExtractToken(cookie, authorization);
    if !Truthy(token) then Unauthorized(401, MsgUnauthorized)
    else match p.verify(token.value, s.accessSecret)
      case Rejected(m) => Unauthorized(401, if m == "" then MsgInvalidToken else m)
      case Decoded(claims) =>
        if key !in claims then Proceed(None) // findById(undefined) resolves to null
        else match claims[key]
          case IdClaim(id) => Proceed(FindById(users, id))
          case TextClaim(t) => Unauthorized(401, CastMessage(t))
  }

  // ---------------------------------------------------------------- token extraction

  /** A truthy cookie wins over any Authorization header. */
  lemma CookieTakesPrecedence(cookie: Option<string>, authorization: Option<string>)
    requires Truthy(cookie)
    ensures ExtractToken(cookie, authorization) == cookie
  {
  }

  /** Without a usable cookie, "Bearer <t>" yields t. */
  lemma BearerHeaderYieldsToken(cookie: Option<string>, t: string)
    requires !Truthy(cookie)
    ensures ExtractToken(cookie, Some(BearerPrefix + t)) == Some(t)
  {
    ReplaceLeadingPattern(BearerPrefix, t);
  }

  /** A header that never mentions "Bearer " is taken verbatim as the token. */
  lemma PlainHeaderIsTheToken(cookie: Option<string>, header: string)
    requires !Truthy(cookie)
    requires forall j: nat :: !OccursAt(header, BearerPrefix, j)
    ensures ExtractToken(cookie, Some(header)) == Some(header)
  {
  }

  /** Only the first "Bearer " is removed: "Bearer Bearer t" yields "Bearer t". */
  lemma OnlyFirstBearerRemoved(cookie: Option<string>, t: string)
    requires !Truthy(cookie)
    ensures ExtractToken(cookie, Some(BearerPrefix + BearerPrefix + t)) == Some(BearerPrefix + t)
  {
    assert BearerPrefix + BearerPrefix + t == BearerPrefix + (BearerPrefix + t);
    ReplaceLeadingPattern(BearerPrefix, BearerPrefix + t);
  }

  // ---------------------------------------------------------------- the gate

  /** With no truthy token from either source the gate answers 401 "Unauthorized request". */
  lemma MissingTokenRejected(key: string, users: Users, cookie: Option<string>, authorization: Option<string>,
                             p: Primitives, s: Secrets)
    requires !Truthy(ExtractToken(cookie, authorization))
    ensures Authenticate(key, users, cookie, authorization, p, s) == Unauthorized(401, MsgUnauthorized)
  {
  }

  /** A token the verifier rejects gives 401 with the verifier's message, or "Invalid Access Token" for none. */
  lemma RejectedTokenRejected(key: string, users: Users, cookie: Option<string>, authorization: Option<string>,
                              p: Primitives, s: Secrets, m: string)
    requires Truthy(ExtractToken(cookie, authorization))
    requires p.verify(ExtractToken(cookie, authorization).value, s.accessSecret) == Rejected(m)
    ensures Authenticate(key, users, cookie, authorization, p, s)
            == Unauthorized(401, if m == "" then MsgInvalidToken else m)
  {
  }

  /**
   * The gate lets a request through exactly when there is a token, the verifier accepts
   * it, and the id claim is absent or an ObjectId; it never rejects because no user was
   * found.
   */
  lemma GateProceedsIff(key: string, users: Users, cookie: Option<string>, authorization: Option<string>,
                        p: Primitives, s: Secrets)
    ensures var token := ExtractToken(cookie, authorization);
      Authenticate(key, users, cookie, authorization, p, s).Proceed? <==>
        && Truthy(token)
        && p.verify(token.value, s.accessSecret).Decoded?
        && var claims := p.verify(token.value, s.accessSecret).claims;
           key !in claims || claims[key].IdClaim?
  {
  }

  /** A verified token naming an id that is not stored attaches null rather than being rejected. */
  lemma MissingUserNotRejected(key: string, users: Users, cookie: Option<string>, authorization: Option<string>,
                               p: Primitives, s: Secrets, id: UserId)
    requires Truthy(ExtractToken(cookie, authorization))
    requires var v := p.verify(ExtractToken(cookie, authorization).value, s.accessSecret);
      v.Decoded? && key in v.claims && v.claims[key] == IdClaim(id)
    requires id !in users
    ensures Authenticate(key, users, cookie, authorization, p, s) == Proceed(None)
  {
  }

  /**
   * The corrected gate: an access token issued for a stored user, presented in the
   * cookie or as "Bearer <token>", attaches that user without password and refresh token.
   */
  lemma IssuedAccessTokenAuthenticates(users: Users, id: UserId, p: Primitives, s: Secrets,
                                       cookie: Option<string>, viaHeader: bool)
    requires VerifyInvertsSign(p) && id in users
    ensures var token := GenerateAccessToken(p, s, id, users[id]);
      var c := if viaHeader then None else Some(token);
      var h := if viaHeader then Some(BearerPrefix + token) else None;
      Authenticate(IdClaimKey, users, c, h, p, s) == Proceed(Some(Sanitize(id, users[id])))
  {
    var token := GenerateAccessToken(p, s, id, users[id]);
    AccessTokenDecodes(p, s, id, users[id]);
    if viaHeader {
      BearerHeaderYieldsToken(None, token);
    }
  }

  /**
   * The gate as written: for the same genuine token it reads the absent claim `id`,
   * findById(undefined) finds nothing, and null is attached as the request's user.
   */
  lemma AsWrittenGateDropsIdentity(users: Users, id: UserId, p: Primitives, s: Secrets, viaHeader: bool)
    requires VerifyInvertsSign(p) && id in users
    ensures var token := GenerateAccessToken(p, s, id, users[id]);
      var c := if viaHeader then None else Some(token);
      var h := if viaHeader then Some(BearerPrefix + token) else None;
      Authenticate(AsWrittenIdClaimKey, users, c, h, p, s) == Proceed(None)
  {
    var token := GenerateAccessToken(p, s, id, users[id]);
    AccessTokenDecodes(p, s, id, users[id]);
    if viaHeader {
      BearerHeaderYieldsToken(None, token);
    }
  }

  /** Consequently, logging out through the gate as written always throws reading `_id` of null. */
  lemma AsWrittenLogoutCrashes(users: Users, nextId: UserId, id: UserId, p: Primitives, s: Secrets)
    requires VerifyInvertsSign(p) && id in users
    ensures var token := GenerateAccessToken(p, s, id, users[id]);
      var g := Authenticate(AsWrittenIdClaimKey, users, Some(token), None, p, s);
      g.Proceed? && LogoutStep(users, nextId, g.user).outcome == Crash(CrashNoRequestUser)
  {
    AsWrittenGateDropsIdentity(users, id, p, s, false);
  }

  /** Through the corrected gate, logout clears the refresh token of the token's owner. */
  lemma CorrectedLogoutClearsToken(users: Users, nextId: UserId, id: UserId, p: Primitives, s: Secrets)
    requires VerifyInvertsSign(p) && id in users
    ensures var token := GenerateAccessToken(p, s, id, users[id]);
      var g := Authenticate(IdClaimKey, users, Some(token), None, p, s);
      var step := LogoutStep(users, nextId, g.user);
      && g.Proceed?
      && step.outcome == Respond(200, Envelope(200, None, MsgLoggedOut))
      && step.users == users[id := users[id].(refreshToken := None)]
  {
    IssuedAccessTokenAuthenticates(users, id, p, s, None, false);
  }

  // ---------------------------------------------------------------- the request

  /** What verifyJWT has assigned to req.user: nothing yet, or the lookup's result (possibly null). */
  datatype Attachment = NotAttached | Attached(found: Option<PublicUser>)

  class Request {
    const accessTokenCookie: Option<string>
    const authorization: Option<string>
    var user: Attachment

    constructor (cookie: Option<string>, header: Option<string>)
      ensures accessTokenCookie == cookie && authorization == header && user == NotAttached
    {
      accessTokenCookie := cookie;
      authorization := header;
      user := NotAttached;
    }

    /**
     * verifyJWT, reading the id from claim `key` (AsWrittenIdClaimKey as the handler does,
     * IdClaimKey as evidently intended): on success req.user is assigned before next().
     */
    method VerifyJwt(key: string, store: UserStore, p: Primitives, s: Secrets) returns (g: GateOutcome)
      modifies this
      ensures g == Authenticate(key, store.users, accessTokenCookie, authorization, p, s)
      ensures g.Proceed? ==> user == Attached(g.user)
      ensures g.Unauthorized? ==> user == old(user)
    {
      var token := ExtractToken(accessTokenCookie, authorization);
      if !Truthy(token) {
        return Unauthorized(401, MsgUnauthorized);
      }
      var decoded := p.verify(token.value, s.accessSecret);
      if decoded.Rejected? {
        return Unauthorized(401, if decoded.message == "" then MsgInvalidToken else decoded.message);
      }
      var found: Option<PublicUser> := None;
      if key in decoded.claims {
        match decoded.claims[key]
        case TextClaim(t) =>
          return Unauthorized(401, CastMessage(t));
        case IdClaim(id) =>
          found := FindById(store.users, id);
      }
      user := Attached(found);
      g := Proceed(found);
    }
  }
}
