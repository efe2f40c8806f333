# codeblog.io server core in Dafny

This project models the core of the codeblog.io Express server and proves properties of the model. The core covers four parts:

- **User registration and sessions.** `registerUser`, `loginUser`, `logoutUser` and `generateAccessAndRefreshTokens` in `user.controller.js`.
- **The User schema.** Trimming and lowercasing setters, the pre-save hook that hashes a modified password, `isPasswordCorrect`, and the claim sets of the access and refresh tokens (`user.model.js`).
- **The access-token gate `verifyJWT`.** It extracts the token from the cookie or the `Authorization` header, verifies it with the access secret, looks up the user and attaches it to the request (`auth.middleware.js`).
- **The blog-creation guard `createBlog`.** Two presence checks, the thumbnail upload, and `Blog.create` with the caller as owner (`blog.controller.js`).

## Conventions

**Store and libraries.**
- The MongoDB collection of users is a `map<UserId, UserRecord>`, held in the `UserStore` class together with the next id.
- Ids are handed out in increasing order. `User.findOne` returns the earliest matching user.
- bcrypt (`hash`, `compare`) and jsonwebtoken (`sign`, `verify`) are fields of a `Primitives` value, so every lemma holds for any implementation.
- Two ghost predicates state the only facts assumed about them, and a lemma uses one only when it names it as a precondition:
  - `CompareAcceptsHash`: `compare(p, hash(p, 10))`.
  - `VerifyInvertsSign`: verifying a token signed with a secret, using that same secret, gives back its claims, and a signed token is never the empty string (so it is truthy when presented back to the gate).

**Handlers.** Each handler is specified by a function from the old store to a `Step`: the outcome plus the new store. The class methods make the same changes in place and their postconditions tie them to those functions. An outcome takes one of three forms:
- the JSON response written;
- the `ApiError` thrown;
- another exception escaping the handler: a TypeError, a Mongoose `ValidationError`, or the duplicate-key error of a unique index.

**Request values.**
- A request-body field that is absent is `None`.
- JavaScript truthiness of such a value is `Truthy`.
- String lengths are JavaScript lengths in UTF-16 code units.
- Query values in `findOne` filters pass through the schema setters (trim and lowercase), as Mongoose casts them.

### Behaviour of the code worth knowing

The model follows the code. For the claim `verifyJWT` reads (see "## Findings") it also states the evidently intended behaviour: the gate takes the claim key as a parameter, as written (`id`) and as intended (`_id`), and the end-to-end lemmas about logout and blog creation say which of the two they use.

- **Check order in registration.** The username/email conflict is checked straight after the blank check, before the length and email checks.
- **Absent fields.** An absent `username` or `password` does not fail validation; it throws a TypeError reading `length`. An absent `fullName` throws the schema's `ValidationError`.
- **Length checks read the raw strings.** The username length is measured before the schema trims it, so a stored username can be shorter than 4 (`Registration.RawLengthCheckAdmitsShortStoredName`).
- **A missing user gets through the gate.** When no user is found, `verifyJWT` attaches `null` and lets the request through instead of answering 401.
- **createBlog checks little.** It checks only that `title` and `content` are truthy and that a thumbnail path exists. It takes no category and checks no lengths.

## Model

| member | source | states |
|---|---|---|
| Text.Trim | server/src/controllers/user.controller.js:33 | `trim` never lengthens a string; TrimShape gives its full shape |
| Text.TrimStartShape | server/src/models/user.model.js:12 | trim's leading part drops exactly the leading ECMAScript whitespace: the rest is a suffix not starting with whitespace |
| Text.TrimEndShape | server/src/models/user.model.js:12 | the trailing part drops exactly the trailing whitespace: the rest is a prefix not ending with whitespace |
| Text.TrimEmptyIffAllWhitespace | server/src/controllers/user.controller.js:33 | a string trims to "" if and only if it consists of whitespace only |
| Text.TrimShape | server/src/models/user.model.js:20 | the trimmed value has no surrounding whitespace and the original is it padded with whitespace |
| Text.TrimIdempotent | server/src/models/user.model.js:26 | trimming a trimmed value changes nothing |
| Text.ToLower | server/src/models/user.model.js:13 | lowercasing keeps the length and maps every character through ASCII lowercasing |
| Text.ToLowerIdempotent | server/src/models/user.model.js:21 | lowercasing twice is lowercasing once |
| Text.LowerTrimCommute | server/src/models/user.model.js:12-13 | trimming and lowercasing commute |
| Text.Utf16Length | server/src/controllers/user.controller.js:51 | a JavaScript length is between the number of characters and twice it |
| Text.Utf16LengthOfBmp | server/src/controllers/user.controller.js:64 | without astral characters the JavaScript length is the number of characters |
| Text.IndexOfFrom | server/src/middlewares/auth.middleware.js:9 | finds the first occurrence of the pattern at or after a position, or reports that there is none |
| Text.ReplaceFirst | server/src/middlewares/auth.middleware.js:9 | replace with a string pattern changes only the first occurrence and leaves a string without one unchanged |
| Text.ReplaceLeadingPattern | server/src/middlewares/auth.middleware.js:9 | removing a leading pattern leaves exactly the rest |
| EmailPattern.IsValidEmail | server/src/controllers/user.controller.js:57-59 | an accepted address is at least six characters long, contains "@" but does not start with it, and does not end with "." |
| EmailPattern.EmailCheckMatchesPattern | server/src/controllers/user.controller.js:57-59 | the deterministic address check accepts exactly the strings the regular expression matches |
| EmailPattern.ValidEmailMatches | server/src/controllers/user.controller.js:57 | an accepted address splits into local part, "@", domain, "." and two or more letters |
| EmailPattern.MatchIsValidEmail | server/src/controllers/user.controller.js:59 | every split the expression admits is accepted by the check |
| EmailPattern.ValidEmailHasOneAt | server/src/controllers/user.controller.js:57 | an accepted address has exactly one "@", not at the start |
| EmailPattern.UndefinedIsNotAnEmail | server/src/controllers/user.controller.js:59 | an absent email, coerced to "undefined", is rejected |
| UserModel.NormalizeKey | server/src/models/user.model.js:8-22 | the username and email setters keep the trimmed length, never lengthen the value, and yield a value lowercasing leaves alone |
| UserModel.NormalizeName | server/src/models/user.model.js:23-28 | the fullName setter yields a value trim leaves alone, never longer, "" exactly for an all-whitespace value |
| UserModel.PreSave | server/src/models/user.model.js:46-51 | the hook changes no field but the password, and a modified password becomes its digest with cost 10 |
| UserModel.IsPasswordCorrect | server/src/models/user.model.js:53-55 | given bcrypt's guarantee, a candidate whose digest is stored is accepted |
| UserModel.GenerateAccessToken | server/src/models/user.model.js:57-72 | given the signing guarantee, the access token is non-empty and verifies with the access secret |
| UserModel.GenerateRefreshToken | server/src/models/user.model.js:74-84 | given the signing guarantee, the refresh token is non-empty and verifies with the refresh secret |
| UserModel.SanitizeHidesSecrets | server/src/controllers/user.controller.js:92-94 | the selected user (Sanitize, the `.select("-password -refreshToken")` also used at line 155) depends on neither the password digest nor the refresh token |
| UserModel.AccessClaims | server/src/models/user.model.js:61-66 | the access payload has exactly the claims _id, username, email and fullName, and no claim "id" |
| UserModel.RefreshClaims | server/src/models/user.model.js:76-78 | the refresh payload has the single claim _id |
| UserModel.NormalizeKeyIsNormal | server/src/models/user.model.js:8-22 | a stored username or email is trimmed and has no upper-case ASCII letter, and normalising it again changes nothing |
| UserModel.NormalizeKeyAbsorbsLower | server/src/controllers/user.controller.js:89 | the controller's toLowerCase before the setters makes no difference |
| UserModel.PreSaveUnmodifiedKeepsRecord | server/src/models/user.model.js:46-51 | a save with the password unmodified keeps the stored digest and every field |
| UserModel.HashedPasswordVerifies | server/src/models/user.model.js:49-55 | given bcrypt's guarantee, the plaintext hashed by the hook passes isPasswordCorrect |
| UserModel.AccessTokenDecodes | server/src/models/user.model.js:57-72 | an access token verified with the access secret yields exactly _id, username, email and fullName of the record, and no claim "id" |
| UserModel.RefreshTokenDecodes | server/src/models/user.model.js:74-84 | a refresh token verified with the refresh secret yields only _id |
| UserModel.RefreshClaimsAreIdOnly | server/src/models/user.model.js:60-66 | the refresh payload is the access payload without its profile claims |
| UserController.FindOne | server/src/controllers/user.controller.js:39-41 | the `$or` lookup returns a stored user matching the username or the email, with no earlier match, or reports that no stored user matches |
| UserController.RegisterStep | server/src/controllers/user.controller.js:27-105 | registration either leaves the store as it was, or answers 201 and adds an entry under the next id while every other entry stays as it was; a 201 always adds one |
| UserController.RejectedWith | server/src/controllers/user.controller.js:32-82 | a registration stopped by a failed check answers that check's reply or exception and leaves the store unchanged |
| UserController.IsBlankField | server/src/controllers/user.controller.js:33 | `item?.trim() === ""`: a present "" is blank, and a blank field is present and empty or starts with whitespace (Registration.BlankFieldIsWhitespace gives the full characterisation) |
| UserController.AnyBlank | server/src/controllers/user.controller.js:32-34 | the `.some` over the four fields: a body with every field absent is never blank, and an empty username or password is |
| UserController.UsernameLengthOk | server/src/controllers/user.controller.js:51 | the raw username passes with 2 to 20 characters at most, and with anything from 4 to 10 characters always |
| UserController.PasswordLengthOk | server/src/controllers/user.controller.js:64 | a password of 6 characters or more always passes; one that passes has at least 3 |
| UserController.NewRecord | server/src/controllers/user.controller.js:84-90 | the document User.create builds has the normalised username (the extra toLowerCase absorbed) and email, the trimmed full name, the plaintext password and no refresh token |
| UserController.QueryKey | server/src/controllers/user.controller.js:39-41 | a filter value is present exactly when the field is, and once cast it is lowercase and no longer than the field |
| UserController.MatchesKeys | server/src/controllers/user.controller.js:39-41 | an `$or` with both values absent matches nothing; a record matches its own username or its own email |
| UserController.HasDuplicateKey | server/src/models/user.model.js:11-19 | an empty collection never violates the unique indexes (Registration.NoDuplicateAfterChecks gives when a registration can) |
| UserController.UnsetRefreshToken | server/src/controllers/user.controller.js:184-194 | `$unset` keeps the ids and every other user, and leaves the named user with no refresh token and every other field |
| UserController.IssueTokens | server/src/controllers/user.controller.js:9-25 | issuing fails exactly for an unknown id; otherwise only that user's refresh token changes, to the one returned |
| UserController.LoginStep | server/src/controllers/user.controller.js:107-179 | login keeps the ids, always writes a reply with status 200, 400, 401 or 404, and changes nothing unless it is a 200 |
| UserController.LogoutStep | server/src/controllers/user.controller.js:181-206 | logout keeps the ids, replies exactly when a user is attached, and leaves that user with no refresh token |
| UserController.FirstMatch | server/src/controllers/user.controller.js:39-41 | the lookup returns the earliest id whose username or email equals the cast filter value, or reports that none matches |
| UserController.RegisterFailure | server/src/controllers/user.controller.js:32-90 | when no check fails, all four fields are present |
| UserController.UserStore.constructor | server/src/models/user.model.js:7-43 | an empty store satisfies the store invariant |
| UserController.UserStore.Insert | server/src/models/user.model.js:8-22 | User.create hashes the password and stores the record under a fresh id, unless a unique index rejects it; the invariant is kept |
| UserController.UserStore.Save | server/src/models/user.model.js:46-51 | document.save applies the pre-save hook and keeps the invariant |
| UserController.UserStore.GenerateAccessAndRefreshTokens | server/src/controllers/user.controller.js:9-25 | signs both tokens, stores the refresh token without re-hashing, and fails only for an unknown id |
| UserController.UserStore.RegisterUser | server/src/controllers/user.controller.js:27-105 | the handler's in-place run gives the outcome and store of the registration function |
| UserController.UserStore.ValidateAndCreate | server/src/controllers/user.controller.js:51-62 | after the blank check and the lookup, the username and email checks and the rest of the run give the outcome and store of the registration function |
| UserController.UserStore.CheckPasswordAndCreate | server/src/controllers/user.controller.js:64-103 | after the username and email checks, the password check, User.create and the reply give the outcome and store of the registration function |
| UserController.UserStore.LoginUser | server/src/controllers/user.controller.js:107-179 | the handler's in-place run gives the outcome and store of the login function |
| UserController.UserStore.LogoutUser | server/src/controllers/user.controller.js:181-206 | the handler's in-place run gives the outcome and store of the logout function |
| Registration.FindOneFindsConflict | server/src/controllers/user.controller.js:39-46 | the lookup finds a user exactly when some stored user has the cast username or email |
| Registration.BlankFieldIsWhitespace | server/src/controllers/user.controller.js:33 | a field is blank exactly when it is present and all whitespace; an absent field never is |
| Registration.ErrorOutcomesDistinct | server/src/controllers/user.controller.js:35-65 | the failures give different replies, except the two TypeErrors on absent fields, and none is a 201 |
| Registration.OutcomeIdentifiesFailure | server/src/controllers/user.controller.js:32-67 | a failure's reply appears exactly when the chain of checks stops at that failure |
| Registration.BlankFieldsRejected | server/src/controllers/user.controller.js:32-37 | 400 "All fields required" if and only if some present field trims to "" |
| Registration.ConflictRejected | server/src/controllers/user.controller.js:39-46 | 409 if and only if no field is blank and a stored user has the username or the email |
| Registration.UsernameLengthRejected | server/src/controllers/user.controller.js:51-54 | after those checks, 400 if and only if the raw username's length is outside 4..20 |
| Registration.EmailRejected | server/src/controllers/user.controller.js:57-62 | after those checks, 400 if and only if the email is absent or does not match the expression |
| Registration.PasswordLengthRejected | server/src/controllers/user.controller.js:64-67 | after those checks, 400 if and only if the raw password is shorter than 6 |
| Registration.ThrowingFailures | server/src/controllers/user.controller.js:51-90 | of the failures, exactly the absent username, password and full name and the duplicate key throw instead of replying |
| Registration.AbsentFieldCrashes | server/src/controllers/user.controller.js:51-90 | the handler throws exactly when the checks reach an absent field, and never with the duplicate-key error |
| Registration.NoDuplicateAfterChecks | server/src/controllers/user.controller.js:39-46 | once the lookup found nothing, the record to insert collides with no stored username or email |
| Registration.AcceptedRegistrationStoresRecord | server/src/controllers/user.controller.js:84-103 | 201 with envelope code 200 if and only if every check passes; it stores the normalised record with the hashed password and no refresh token under a fresh id, and returns it without the secrets |
| Registration.UniqueIndexNeverRejects | server/src/controllers/user.controller.js:39-46 | the conflict check makes the unique indexes' error unreachable |
| Registration.RejectedRegistrationChangesNothing | server/src/controllers/user.controller.js:32-67 | a registration that is not a 201 leaves the store unchanged |
| Registration.RegisterPreservesInvariant | server/src/models/user.model.js:8-22 | registration keeps usernames and emails unique and ids below the next id |
| Registration.RegisteredPasswordVerifies | server/src/models/user.model.js:53-55 | the password given at registration verifies against the stored digest |
| Registration.RawLengthCheckAdmitsShortStoredName | server/src/controllers/user.controller.js:51 | "  ab  " passes the length check but is stored as "ab" |
| Registration.SecondRegistrationWithSameEmailConflicts | server/src/controllers/user.controller.js:39-46 | after an accepted registration, any registration reusing that email is a 409 that changes nothing |
| Registration.SampleRegistrationCreated | server/src/tests/user.controller.test.js:107-117 | the test's request into an empty store is a 201 that stores one user |
| Session.FindOneFindsKnownUser | server/src/controllers/user.controller.js:125-127 | the login lookup finds a user exactly when one matches the username or the email |
| Session.LoginIdentifierRequired | server/src/controllers/user.controller.js:115-118 | 400 if and only if neither a username nor an email is truthy |
| Session.LoginPasswordRequired | server/src/controllers/user.controller.js:120-123 | then 400 if and only if the password is not truthy |
| Session.LoginUnknownUser | server/src/controllers/user.controller.js:132-135 | then 404 if and only if no stored user matches |
| Session.LoginWrongPassword | server/src/controllers/user.controller.js:137-145 | then 401 if and only if bcrypt rejects the password of the earliest matching user |
| Session.LoginSuccess | server/src/controllers/user.controller.js:149-177 | a login passing every check answers 200 with the user without secrets and both tokens, and stores the new refresh token |
| Session.LoginNeverFailsToIssue | server/src/controllers/user.controller.js:22-24 | the 501 token error cannot occur after a successful lookup |
| Session.LoginWritesOnlyRefreshToken | server/src/controllers/user.controller.js:17-18 | a login adds no user, removes none, and changes no field but the refresh token |
| Session.FailedLoginChangesNothing | server/src/controllers/user.controller.js:115-145 | a login that is not a 200 leaves the store unchanged |
| Session.LoginPreservesInvariant | server/src/controllers/user.controller.js:9-20 | login keeps the store invariant |
| Session.LoginTokensDecode | server/src/controllers/user.controller.js:149-177 | the returned access token decodes to exactly the claims _id, username, email and fullName of the returned user, and the refresh token, which is the one stored, to the id alone |
| Session.LogoutUnsetsOnlyToken | server/src/controllers/user.controller.js:184-205 | logout answers 200 and unsets the refresh token of the attached user, changing nothing else; a null user throws |
| Session.LogoutIdempotent | server/src/controllers/user.controller.js:184-194 | logging out twice gives the same outcome and store as once |
| Session.LogoutPreservesInvariant | server/src/controllers/user.controller.js:184-194 | logout keeps the store invariant |
| Session.LoginAfterLogout | server/src/controllers/user.controller.js:125-177 | a login after any user's logout has exactly the outcome (status, user and both tokens) it would have had before |
| Session.IssueAfterUnset | server/src/controllers/user.controller.js:9-20 | unsetting a refresh token changes neither token issued afterwards nor the profile they are issued for |
| Session.SameKeysSameMatch | server/src/controllers/user.controller.js:125-127 | stores with equal ids, usernames and emails answer every lookup alike |
| Session.RegisteredUserCanLogIn | server/src/controllers/user.controller.js:84-177 | a user who registered can log in with the same username, email and password, getting 200, the stored user and both tokens |
| AuthMiddleware.ExtractToken | server/src/middlewares/auth.middleware.js:9 | a truthy cookie is the token; otherwise there is a token exactly when there is an Authorization header |
| AuthMiddleware.FindById | server/src/middlewares/auth.middleware.js:17-18 | findById with the select finds a user exactly when the id is stored, and returns it without secrets |
| AuthMiddleware.Authenticate | server/src/middlewares/auth.middleware.js:7-27 | every rejection of the gate is a 401 with a non-empty message |
| AuthMiddleware.CookieTakesPrecedence | server/src/middlewares/auth.middleware.js:9 | a truthy accessToken cookie is the token, whatever the header |
| AuthMiddleware.BearerHeaderYieldsToken | server/src/middlewares/auth.middleware.js:9 | without a cookie, "Bearer t" yields t |
| AuthMiddleware.PlainHeaderIsTheToken | server/src/middlewares/auth.middleware.js:9 | a header without "Bearer " is taken verbatim |
| AuthMiddleware.OnlyFirstBearerRemoved | server/src/middlewares/auth.middleware.js:9 | only the first "Bearer " is removed |
| AuthMiddleware.MissingTokenRejected | server/src/middlewares/auth.middleware.js:11-13 | without a truthy token the gate answers 401 "Unauthorized request" |
| AuthMiddleware.RejectedTokenRejected | server/src/middlewares/auth.middleware.js:15-26 | a token the verifier rejects gives 401 with its message, or "Invalid Access Token" |
| AuthMiddleware.GateProceedsIff | server/src/middlewares/auth.middleware.js:9-22 | the gate proceeds exactly when a token is present, verifies, and its id claim is absent or an ObjectId |
| AuthMiddleware.MissingUserNotRejected | server/src/middlewares/auth.middleware.js:17-22 | a verified token naming no stored user attaches null instead of being rejected |
| AuthMiddleware.IssuedAccessTokenAuthenticates | server/src/middlewares/auth.middleware.js:17-22 | with the `_id` claim, an issued access token in the cookie or the header attaches its owner without secrets |
| AuthMiddleware.AsWrittenGateDropsIdentity | server/src/middlewares/auth.middleware.js:17 | as written, with claim `id`, the same token attaches null |
| AuthMiddleware.AsWrittenLogoutCrashes | server/src/controllers/user.controller.js:184-185 | so logout through the gate as written throws reading `_id` of null |
| AuthMiddleware.CorrectedLogoutClearsToken | server/src/controllers/user.controller.js:184-205 | through the corrected gate, logout clears the token owner's refresh token |
| AuthMiddleware.Request.constructor | server/src/middlewares/auth.middleware.js:9 | a request starts with its cookie and header and no user attached |
| AuthMiddleware.Request.VerifyJwt | server/src/middlewares/auth.middleware.js:7-27 | for the claim key it is given (`id` as written, `_id` as intended), the in-place run returns that gate's outcome and assigns req.user only when it proceeds |
| BlogController.CreateBlogStep | server/src/controllers/blog.controller.js:8-34 | createBlog either leaves the blogs as they were or appends one blog owned by the attached user and answers 201; it uploads the request's thumbnail path, and only when it does not reject |
| BlogController.RejectedIffFieldMissing | server/src/controllers/blog.controller.js:12-20 | the handler rejects exactly the requests missing a title, a content or a thumbnail path |
| BlogController.RejectionHasNoEffect | server/src/controllers/blog.controller.js:12-24 | a rejection is a 400, uploads nothing and creates no blog |
| BlogController.TitleAndContentCheckedFirst | server/src/controllers/blog.controller.js:12-14 | without a title or content the answer is "Please provide title and content", whatever the thumbnail |
| BlogController.ThumbnailRequired | server/src/controllers/blog.controller.js:16-20 | with title and content, 400 "Please provide thumbnail" if and only if the path is falsy |
| BlogController.CreatedBlogOwnedByCaller | server/src/controllers/blog.controller.js:24-33 | a created blog has the supplied title and content, the uploaded URL and the caller as owner; it is appended and returned with 201 |
| BlogController.CreatedIff | server/src/controllers/blog.controller.js:12-33 | a blog is created exactly when the checks pass, the upload yields a URL and a user is attached; otherwise nothing is stored |
| BlogController.NullUserUploadsThenCrashes | server/src/controllers/blog.controller.js:22-28 | with a null user the image is uploaded, then the handler throws and stores nothing |
| BlogController.BlogOwnedByTokenHolder | server/src/controllers/blog.controller.js:24-29 | a blog posted with a user's access token is owned by that user through the corrected gate, and throws through the gate as written |
| BlogController.BlogStore.constructor | server/src/controllers/blog.controller.js:24 | the blog store starts empty |
| BlogController.BlogStore.Create | server/src/controllers/blog.controller.js:24-29 | Blog.create appends one document |
| BlogController.BlogStore.CreateBlog | server/src/controllers/blog.controller.js:8-34 | the handler's in-place run gives the outcome, the upload and the store of the createBlog function |

## Left out

- **Handler responses.**
  - The missing `return` after each error reply in `registerUser` and `loginUser` is not modelled. Execution continues past the reply, writes headers a second time, and can still reach `User.create`. The model is first-failure-wins.
  - The 500 branch after `User.findById` in `registerUser`, and the re-read in `loginUser`, assume that the store returns what was just written.
  - Cookie options and the setting and clearing of cookies are not modelled.
  - Express routing, multer and the error handler are not modelled.
- **bcrypt and jsonwebtoken.**
  - bcrypt's random salt is not modelled: the hash is any function.
  - Token expiry, `iat` and `exp`, and clock time are not modelled.
  - jsonwebtoken is any pair of functions.
  - UserController.IssueTokens, UserController.LoginStep, UserController.UserStore.GenerateAccessAndRefreshTokens and Session.LoginNeverFailsToIssue assume that `jwt.sign` and `user.save` never throw. The 501 branch of `generateAccessAndRefreshTokens` is unreachable only under that assumption. In the source, `jwt.sign` throws on an empty or undefined secret, and login then answers 501.
- **Request bodies.**
  - Request-body fields are strings or absent; non-string JSON values and `null` are not modelled. In the source a number makes `item?.trim()` throw before the conflict check, and `null` throws reading `length` of null rather than of undefined.
- **Database lookups.**
  - `User.findOne` with an absent filter value is modelled as matching nothing. What Mongoose does with `undefined` inside `$or` is not modelled.
  - A claim value is either an ObjectId or text that does not cast. A text claim that happens to spell 24 hexadecimal digits is not modelled.
  - Database, network and upload failures are not modelled, nor async scheduling.
  - The exact text of Mongoose's CastError message is abbreviated.
- **Text handling.**
  - Text.ToLower: lowercases ASCII letters only, while JavaScript's toLowerCase covers all of Unicode.
  - Emails and usernames with non-ASCII capitals are therefore compared more strictly than in the source.
- **Blog creation.**
  - The crash when `req.files` exists without `thumbnail` is not modelled; the thumbnail path is given directly.
  - blog.model.js is not part of this model. `Blog.create` is assumed to accept every document and to append it.
  - The local-file removal done by the uploader is not modelled.
- **Other parts of the repository.**
  - `getUserProfile` has an empty body and is not modelled.
  - `profileImage` and the timestamps are not modelled.
  - The schema-only models (comments, saved blogs, upvotes) and the blog routes that are commented out are not modelled.

## Findings

| source | as written | input that shows it | evidently intended | confidence | as-written member | corrected member |
|---|---|---|---|---|---|---|
| server/src/middlewares/auth.middleware.js:17 | the user is looked up by `decodedToken?.id`, but the user model signs access tokens with `_id`; `findById(undefined)` yields null and null is attached as `req.user` | any access token issued by `generateAccessToken` for a stored user, presented in the cookie | look the user up by `decodedToken?._id`, so the token's owner is attached (and logout and blog creation get a user) | not executed | AuthMiddleware.AsWrittenGateDropsIdentity | AuthMiddleware.IssuedAccessTokenAuthenticates |
