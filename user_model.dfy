/**
 * The User schema: the stored record, the values the schema normalises, the pre-save
 * hook that hashes a modified password, the password check, and the claim sets of the
 * two tokens a user record signs.
 */
module UserModel {
  import opened Wrappers
  import opened Text
  import opened Crypto

  type UserId = ObjectId

  /** A stored user document (timestamps left out). */
  datatype UserRecord = UserRecord(
    username: string,
    email: string,
    fullName: string,
    password: string,             // the bcrypt digest once saved
    refreshToken: Option<string>   // the single current refresh token, if any
  )

  /** A user document as selected with "-password -refreshToken". */
  datatype PublicUser = PublicUser(id: UserId, username: string, email: string, fullName: string)

  function Sanitize(id: UserId, rec: UserRecord): PublicUser {
    PublicUser(id, rec.username, rec.email, rec.fullName)
  }

  /** The selected user depends on neither the password digest nor the refresh token. */
  lemma SanitizeHidesSecrets(id: UserId, rec: UserRecord, password: string, refreshToken: Option<string>)
    ensures Sanitize(id, rec.(password := password, refreshToken := refreshToken)) == Sanitize(id, rec)
  {
  }

  /** The schema setters of username and email: trim and lowercase (also applied to query values). */
  function NormalizeKey(s: string): (k: string)
    ensures |k| == |Trim(s)| && |k| <= |s|
    ensures ToLower(k) == k
  {
    ToLowerIdempotent(Trim(s));
    ToLower(Trim(s))
  }

  /** The schema setter of fullName: trim only. */
  function NormalizeName(s: string): (n: string)
    ensures Trim(n) == n && |n| <= |s|
    ensures n == "" <==> AllWhitespace(s)
  {
    TrimIdempotent(s);
    TrimEmptyIffAllWhitespace(s);
    Trim(s)
  }

  /** A normalised key has no surrounding whitespace and no upper-case ASCII letter. */
  lemma NormalizeKeyIsNormal(s: string)
    ensures var k := NormalizeKey(s);
      && ToLower(k) == k && Trim(k) == k
      && forall i :: 0 <= i < |k| ==> !('A' <= k[i] <= 'Z')
  {
    var t := Trim(s);
    var k := ToLower(t);
    ToLowerIdempotent(t);
    LowerTrimCommute(t);
    TrimIdempotent(s);
    assert Trim(k) == ToLower(Trim(t)) == k;
    forall i | 0 <= i < |k|
      ensures !('A' <= k[i] <= 'Z')
    {
      LowerCharNotUpper(t[i]);
    }
  }

  lemma LowerCharNotUpper(c: char)
    ensures !('A' <= LowerChar(c) <= 'Z')
  {
  }

  /** Lowercasing before the setters run changes nothing: the controller's toLowerCase is redundant. */
  lemma NormalizeKeyAbsorbsLower(s: string)
    ensures NormalizeKey(ToLower(s)) == NormalizeKey(s)
  {
    LowerTrimCommute(s);
    ToLowerIdempotent(Trim(s));
  }

  /** The pre-save hook: the password is replaced by its digest only when it was modified. */
  function PreSave(rec: UserRecord, passwordModified: bool, hash: (string, nat) -> string): (r: UserRecord)
    ensures r.(password := rec.password) == rec
    ensures passwordModified ==> r.password == hash(rec.password, SaltRounds)
  {
    if passwordModified then rec.(password := hash(rec.password, SaltRounds)) else rec
  }

  /** A save that leaves the password unmodified keeps the stored digest and every other field. */
  lemma PreSaveUnmodifiedKeepsRecord(rec: UserRecord, hash: (string, nat) -> string)
    ensures PreSave(rec, false, hash) == rec
  {
  }

  /** isPasswordCorrect: bcrypt.compare of the candidate against the stored digest. */
  function IsPasswordCorrect(p: Primitives, rec: UserRecord, candidate: string): (ok: bool)
    ensures CompareAcceptsHash(p) && rec.password == p.hash(candidate, SaltRounds) ==> ok
  {
    p.compare(candidate, rec.password)
  }

  /** A record whose plaintext password was hashed by the hook accepts that same plaintext. */
  lemma HashedPasswordVerifies(p: Primitives, rec: UserRecord)
    requires CompareAcceptsHash(p)
    ensures IsPasswordCorrect(p, PreSave(rec, true, p.hash), rec.password)
  {
  }

  /** The payload of an access token. */
  function AccessClaims(id: UserId, rec: UserRecord): (c: Claims)
    ensures c.Keys == {"_id", "username", "email", "fullName"} && "id" !in c
    ensures c["_id"] == IdClaim(id) && c["fullName"] == TextClaim(rec.fullName)
  {
    map["_id" := IdClaim(id), "username" := TextClaim(rec.username),
        "email" := TextClaim(rec.email), "fullName" := TextClaim(rec.fullName)]
  }

  /** The payload of a refresh token. */
  function RefreshClaims(id: UserId): (c: Claims)
    ensures c.Keys == {"_id"} && c["_id"] == IdClaim(id)
  {
    map["_id" := IdClaim(id)]
  }

  /** generateAccessToken: signed with the access secret; given VerifyInvertsSign, a non-empty token. */
  function GenerateAccessToken(p: Primitives, s: Secrets, id: UserId, rec: UserRecord): (t: string)
    ensures VerifyInvertsSign(p) ==> t != "" && p.verify(t, s.accessSecret).Decoded?
  {
    p.sign(AccessClaims(id, rec), s.accessSecret, s.accessExpiry)
  }

  /** generateRefreshToken: signed with the refresh secret; given VerifyInvertsSign, a non-empty token. */
  function GenerateRefreshToken(p: Primitives, s: Secrets, id: UserId): (t: string)
    ensures VerifyInvertsSign(p) ==> t != "" && p.verify(t, s.refreshSecret).Decoded?
  {
    p.sign(RefreshClaims(id), s.refreshSecret, s.refreshExpiry)
  }

  /**
   * An access token, verified with the access secret, yields exactly the four claims
   * _id, username, email and fullName of the record; it has no claim named "id".
   */
  lemma AccessTokenDecodes(p: Primitives, s: Secrets, id: UserId, rec: UserRecord)
    requires VerifyInvertsSign(p)
    ensures var v := p.verify(GenerateAccessToken(p, s, id, rec), s.accessSecret);
      && v.Decoded?
      && v.claims.Keys == {"_id", "username", "email", "fullName"}
      && v.claims["_id"] == IdClaim(id)
      && v.claims["username"] == TextClaim(rec.username)
      && v.claims["email"] == TextClaim(rec.email)
      && v.claims["fullName"] == TextClaim(rec.fullName)
      && "id" !in v.claims
  {
    assert p.verify(p.sign(AccessClaims(id, rec), s.accessSecret, s.accessExpiry), s.accessSecret)
        == Decoded(AccessClaims(id, rec));
  }

  /** A refresh token, verified with the refresh secret, yields only the _id claim. */
  lemma RefreshTokenDecodes(p: Primitives, s: Secrets, id: UserId)
    requires VerifyInvertsSign(p)
    ensures var v := p.verify(GenerateRefreshToken(p, s, id), s.refreshSecret);
      v.Decoded? && v.claims.Keys == {"_id"} && v.claims["_id"] == IdClaim(id)
  {
    assert p.verify(p.sign(RefreshClaims(id), s.refreshSecret, s.refreshExpiry), s.refreshSecret)
        == Decoded(RefreshClaims(id));
  }

  /** The refresh payload is the access payload with every profile claim removed. */
  lemma RefreshClaimsAreIdOnly(id: UserId, rec: UserRecord)
    ensures RefreshClaims(id) == AccessClaims(id, rec) - {"username", "email", "fullName"}
  {
  }
}
