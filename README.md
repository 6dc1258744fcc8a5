# Opus-Lab admin panel: authentication and authorisation core, in Dafny

This project models the backend of the Opus-Lab RBAC admin panel (Express, Mongoose, JWT,
bcryptjs) and two pieces of its React frontend:

- the session lifecycle in `auth.service.ts`: signup with an e-mail verification token,
  login issuing an access token and a refresh cookie, logout, refresh-token rotation,
  password reset by token or by e-mail, and e-mail verification;
- the user schema in `user.model.ts`: the lower-casing email setter, the `isVerified`
  default, the pre-save hook that hashes a modified password, and `comparePassword`;
- the validator chains of `auth.controller.ts` in front of signup and login;
- the `authenticateJWT` gate in `auth.middleware.ts` and the `/me` handler;
- the user, role and permission administration handlers (validators, creation under the
  unique indexes, paged listings, by-id reads, updates and deletes);
- the frontend's choice of reset body in `confirmPasswordReset`, and the selection logic
  of the role-permissions page.

Every handler that changes the database is a module-level method that takes the
`Models.Database` and modifies it. That class's fields are the users, roles and permissions
collections (maps keyed by id), the token collection (a sequence in insertion order, which
is the order `findOne` and `deleteOne` scan it in) and the id counter `nextId`. Each such
method states its status code and every field's new value. Lookups, the gate and listings
are functions. Properties that span several requests are proved as lemmas, or as
methods that run the handlers one after another.

The model keeps what the code does, including these behaviours:

- refresh never checks that the presented value is still recorded in the ledger;
- a role's permissions are not deduplicated;
- `isVerified` defaults to true and login never reads it;
- an admin's password update stores the value unhashed;
- a password reset to the very text an admin stored raw leaves the field unmodified, so the
  save hook does not hash it and the account stays locked.

Opaque services are stand-ins with the properties the code relies on:

- JWT is a symbolic signature keyed by the secret. It round-trips, refuses the other secret
  and expires at `exp` seconds.
- bcrypt is a symbolic digest that accepts exactly the hashed secret.
- `crypto.randomBytes(32)` is a 32-byte parameter, encoded as 64 hex digits.
- The clock is a millisecond parameter. The bcrypt salt is a parameter.
- Mongo ids come from a counter (`nextId`), so creation order is id order.

## Model

| member | source | states |
|---|---|---|
| UserModel.Create | backend/src/models/user.model.ts:12-23 | `User.create` succeeds exactly when email and password are non-empty; the stored email is lower-cased, `isVerified` defaults to true, roles default to empty, and the stored digest accepts exactly the given password |
| UserModel.PreSave | backend/src/models/user.model.ts:19-23 | the save hook leaves the document unchanged when the password was not modified, and otherwise replaces the text with its bcrypt digest, touching no other field |
| UserModel.SetPasswordAndSave | backend/src/models/user.model.ts:19-27 | assigning a password and saving hashes it when the assignment changed the field, and the record then accepts exactly that password; assigning the raw text already stored leaves the record as it is, accepting nothing |
| UserModel.ComparePassword | backend/src/models/user.model.ts:25-27 | a candidate is accepted only against a bcrypt digest, and only when it is the secret the digest was made from |
| UserModel.SaveWithoutPasswordChange | backend/src/models/user.model.ts:19-20 | a save that does not touch the password keeps the stored digest (no double hashing) |
| Hex.UnhexHexOf | backend/src/services/auth.service.ts:18 | the hex encoding of random bytes is lossless: decoding gives the bytes back |
| Hex.TokenShape | backend/src/services/auth.service.ts:84 | a token from 32 random bytes is 64 hex digits, so it never contains '@', '.' or a space |
| Jwt.DecodeSign | backend/src/services/auth.service.ts:37-38 | a signed token decodes, under the same secret, to the claims it was signed with |
| Jwt.VerifySign | backend/src/middleware/auth.middleware.ts:18 | `jwt.verify` of a token signed with the same secret yields its claims exactly while the current second is before `exp` |
| Jwt.DecodeOtherSecret | backend/src/services/auth.service.ts:7-8 | a token signed under one secret never decodes under a different one |
| Jwt.SecretsSeparate | backend/src/services/auth.service.ts:7-8 | with the default secrets, access tokens never verify as refresh tokens and refresh tokens never verify as access tokens |
| Jwt.ValueOfDigits | backend/src/services/auth.service.ts:37 | the numeric claims round-trip through their decimal encoding |
| Models.Ttl | backend/src/services/auth.service.ts:37-39 | a refresh record expires together with the seven-day JWT it stores; verify and reset tokens live between one hour and one day |
| Models.FindByEmail | backend/src/services/auth.service.ts:14 | `findOne({ email })` finds a user holding the lower-cased email, and finds none exactly when no user holds it |
| Models.FindByEmailFinds | backend/src/models/user.model.ts:13 | under the unique index the lookup returns the one user holding the email |
| Models.FindFrom | backend/src/controllers/role.controller.ts:21 | a `findOne` scan returns an id whose document satisfies the query, and none exactly when no document does |
| Models.FirstWhere | backend/src/services/auth.service.ts:100 | the first ledger position satisfying a query, with no earlier position satisfying it |
| Models.FindLive | backend/src/services/auth.service.ts:100 | `Token.findOne({ token, type, expires > now })` finds a matching live record, or proves there is none |
| Models.RemoveAt | backend/src/services/auth.service.ts:103 | deleting a record by `_id` removes exactly that record (multiset difference) |
| Models.CountValueAppend | backend/src/services/auth.service.ts:39 | the count of records holding a value adds up over concatenated ledgers |
| Models.CountValueZero | backend/src/services/auth.service.ts:50 | no record holds a value exactly when its count is 0 |
| Models.RemoveAtCount | backend/src/services/auth.service.ts:103 | removing a record lowers its value's count by one and leaves other values' counts unchanged |
| Models.DeleteOne | backend/src/services/auth.service.ts:50 | `deleteOne({ token })` removes at most one record and adds none |
| Models.DeleteOneRemovesFirst | backend/src/services/auth.service.ts:68 | the record removed is the first one, in insertion order, holding the value |
| Models.DeleteOneRemovesOne | backend/src/services/auth.service.ts:50 | `deleteOne({ token })` removes one record holding the value when there is one, and otherwise changes nothing |
| Models.ConsumedIsGone | backend/src/services/auth.service.ts:100-103 | after the only record with a value is consumed, no later lookup of that value succeeds |
| Models.FilterIds | backend/src/controllers/user.controller.ts:9-12 | the kept ids are exactly those that match; a single id is kept exactly when it matches |
| Models.FilterIdsAppend | backend/src/controllers/user.controller.ts:9-12 | filtering distributes over concatenation, so kept ids stay in their relative order |
| Models.FilterIdsKeepsOrder | backend/src/controllers/user.controller.ts:9-13 | filtering an increasing id list gives an increasing list |
| Models.FilterKeepsAll | backend/src/controllers/user.controller.ts:9-12 | a filter every id passes keeps the list as it is |
| Models.PresentIds | backend/src/controllers/me.controller.ts:11-14 | `populate` keeps exactly the references that resolve; a single reference is kept exactly when it resolves |
| Models.PresentIdsAppend | backend/src/controllers/me.controller.ts:11-14 | populating a concatenation populates each part, so references keep their stored order |
| Models.PresentIdsKeepsOrder | backend/src/controllers/me.controller.ts:11-14 | populating increasing references gives increasing ids |
| Models.Populate | backend/src/controllers/me.controller.ts:11-14 | the populated documents are the resolved references' documents, in order |
| Models.PresentIdsAll | backend/src/controllers/me.controller.ts:11-14 | when every reference resolves, `populate` keeps them all, in order |
| AuthService.LoginUser | backend/src/services/auth.service.ts:32-35 | a login succeeds exactly for the user holding the lower-cased email whose stored password accepts the candidate |
| AuthService.RefreshUser | backend/src/services/auth.service.ts:60-64 | a refresh cookie authenticates exactly when it is non-empty and verifies under the refresh secret for an existing user; the ledger is not consulted |
| AuthService.WithNewPassword | backend/src/services/auth.service.ts:108-109 | setting the password and saving keeps the other fields; the record accepts exactly the new password, unless it already held that text raw, in which case it is left unchanged and accepts nothing |
| AuthService.Signup | backend/src/services/auth.service.ts:10-27 | 400 when email or password is missing, 409 when the email is taken, otherwise 201: a hashed user with `isVerified` true stored under the next id, the counter advanced, and a 24-hour verify token recorded and returned |
| AuthService.Login | backend/src/services/auth.service.ts:29-45 | 200 exactly when `LoginUser` succeeds: an access token for 15 minutes and a 7-day refresh token recorded and set as a cookie; otherwise 401 with the ledger unchanged |
| AuthService.Logout | backend/src/services/auth.service.ts:47-56 | always 200 with the cookie cleared; a present cookie value deletes the first record holding it |
| AuthService.Refresh | backend/src/services/auth.service.ts:58-75 | 200 exactly when `RefreshUser` succeeds: the old value's record is deleted and a new refresh token recorded; otherwise 401 and nothing changes |
| AuthService.ResetPassword | backend/src/services/auth.service.ts:77-92 | 400 without an email, 404 for an unknown one, otherwise a one-hour reset token recorded and returned |
| AuthService.ResetPasswordConfirm | backend/src/services/auth.service.ts:94-114 | 400 without token and email, or without password; a token must be a live reset record (else 400), which is consumed; then 404 for a missing user, otherwise the user's record becomes `WithNewPassword` of it |
| AuthService.VerifyEmail | backend/src/services/auth.service.ts:116-131 | 400 without a token or without a live verify record; 404 when its user is gone (record kept); otherwise the user becomes verified and the record is consumed |
| AuthFlows.IssuedTokenLiveUntilExpiry | backend/src/services/auth.service.ts:19-20 | a freshly recorded token is found exactly until its issue time plus its lifetime |
| AuthFlows.LoginCookieRefreshes | backend/src/services/auth.service.ts:38-40 | the refresh cookie from login authenticates a refresh exactly while its user exists and seven days have not passed |
| AuthFlows.AccessTokenIsNoRefreshCookie | backend/src/services/auth.service.ts:37 | an access token presented as the refresh cookie is refused |
| AuthFlows.SignedUpUserLogsIn | backend/src/services/auth.service.ts:16 | a user created at signup logs in with the signup password |
| AuthFlows.SignupVerifyLogin | backend/src/services/auth.service.ts:10-45 | signup, verification with the returned token, then login all succeed, and the user ends up verified |
| AuthFlows.ResetTokenSingleUse | backend/src/services/auth.service.ts:77-114 | a reset token works once; confirming with it a second time is refused with 400 |
| AuthFlows.RefreshAfterLogout | backend/src/services/auth.service.ts:47-75 | a refresh cookie still refreshes after logout deleted its record, because refresh never consults the ledger |
| AuthFlows.RefreshReplay | backend/src/services/auth.service.ts:58-75 | a rotated-out refresh cookie can be replayed until it expires |
| AuthFlows.AccessTokenReadsOwnProfile | backend/src/controllers/me.controller.ts:9-18 | the access token from login passes the gate as its user, and `/me` then answers with that user's email and role names |
| AuthController.SignupErrors | backend/src/controllers/auth.controller.ts:6-16 | "Email invalide" exactly when the email is absent or not an email, "Mot de passe trop court" exactly when the password is absent or under 8 characters |
| AuthController.LoginErrors | backend/src/controllers/auth.controller.ts:19-29 | "Email invalide" exactly when the email is absent or not an email, "Mot de passe requis" exactly when the password is absent or empty |
| AuthController.SignupAcceptedLoginAccepted | backend/src/controllers/auth.controller.ts:6-29 | credentials the signup chain accepts also pass the login chain |
| AuthController.ValidatedSignupPassesServiceCheck | backend/src/controllers/auth.controller.ts:6-16 | a body past the signup chain has a non-empty email and a password of at least 8 characters, so the service's own 400 check never fires |
| AuthController.RoutedSignup | backend/src/routes/auth.routes.ts:6 | a rejected body is answered 400 with the chain's messages and changes nothing; an accepted one is answered 409, changing nothing, exactly when the email is taken, and 201 otherwise: the user under the next id (with a password of at least 8 characters), the counter advanced, and the returned verify token recorded for 24 hours; roles and permissions never change |
| AuthController.RoutedLogin | backend/src/routes/auth.routes.ts:7 | a rejected body is answered 400 and changes nothing; otherwise 200 exactly when `LoginUser` succeeds, with the access token, the refresh cookie and its ledger record as in the service, else 401 with the ledger unchanged; users, roles, permissions and the counter never change |
| AuthMiddleware.HasBearerPrefix | backend/src/middleware/auth.middleware.ts:13 | `startsWith('Bearer ')` is the sequence-prefix test, and it requires the space after "Bearer" |
| AuthMiddleware.Split | backend/src/middleware/auth.middleware.ts:16 | `split(' ')` yields at least one field, no field contains the separator, and the first field is the prefix of the string up to the first separator |
| AuthMiddleware.JoinSplit | backend/src/middleware/auth.middleware.ts:16 | joining the fields of a split gives the original string back |
| AuthMiddleware.SplitJoin | backend/src/middleware/auth.middleware.ts:16 | splitting a join of separator-free fields gives the fields back |
| AuthMiddleware.BearerToken | backend/src/middleware/auth.middleware.ts:16 | the token is the space-free text after "Bearer ", up to the next space or the end of the header |
| AuthMiddleware.BearerTokenOf | backend/src/middleware/auth.middleware.ts:13-16 | "Bearer " followed by a space-free token, alone or followed by more fields, yields that token |
| AuthMiddleware.Authenticate | backend/src/middleware/auth.middleware.ts:11-26 | 401 "Token manquant ou invalide." without the exact prefix; 401 "Token invalide." exactly when the token does not verify under the access secret; 401 "Utilisateur non trouvé." exactly when its user is gone; otherwise the request passes as that user |
| AuthMiddleware.AccessTokenPassesGate | backend/src/middleware/auth.middleware.ts:11-26 | a login access token is refused once expired, otherwise it passes exactly when its user exists |
| AuthMiddleware.RefreshTokenRejectedAtGate | backend/src/middleware/auth.middleware.ts:18 | a refresh token is never accepted at the gate |
| AuthMiddleware.PrefixIsExact | backend/src/middleware/auth.middleware.ts:13 | "bearer " in lower case and "Bearer" without the space are both refused as a missing token |
| MeController.RoleNames | backend/src/controllers/me.controller.ts:16 | one name per populated role, in order |
| MeController.Grants | backend/src/controllers/me.controller.ts:17 | one name per resolving permission reference of a role, the k-th name belonging to the k-th resolving reference; a name is present exactly when some resolving reference carries it |
| MeController.PermissionNames | backend/src/controllers/me.controller.ts:17 | `flatMap` gives nothing for no role and exactly one role's grants for one role |
| MeController.PermissionNamesAppend | backend/src/controllers/me.controller.ts:17 | `flatMap` distributes over the concatenation of role lists |
| MeController.PermissionNamesLength | backend/src/controllers/me.controller.ts:17 | the permission list has one entry per resolving reference of every held role, so duplicates are kept |
| MeController.PermissionNamesMember | backend/src/controllers/me.controller.ts:17 | a name is listed exactly when some held role references an existing permission with that name |
| MeController.PermissionMembershipOrderFree | backend/src/controllers/me.controller.ts:17 | which names are listed depends only on which roles are held, not on their order or repetition |
| MeController.PermissionSequenceKeepsOrderAndDuplicates | backend/src/controllers/me.controller.ts:17 | a concrete case: two roles sharing a permission list that name twice, in role order |
| MeController.GetMe | backend/src/controllers/me.controller.ts:6-22 | 401 without an authenticated user, 404 for a deleted one; otherwise the user's email, the names of their existing roles in order, and `PermissionNames` of those roles, whose length and membership are stated as well |
| Paging.OrDefault | backend/src/controllers/permission.controller.ts:27-28 | `parseInt(q) \|\| d`: the query value unless it is absent or 0, and never 0 when the default is not |
| Paging.Window | backend/src/controllers/permission.controller.ts:30-32 | `skip(s).limit(l)`: refused for a negative skip; otherwise the contiguous run from the skip, at most the absolute value of the limit (no bound for 0), and as long as the collection allows |
| Paging.CeilDiv | backend/src/controllers/permission.controller.ts:36 | `Math.ceil(total / limit)` for either sign of the limit |
| Paging.FirstPagesArePrefix | backend/src/controllers/role.controller.ts:32-35 | the first n pages concatenated are the first n times limit items |
| Paging.PagesCoverListing | backend/src/controllers/role.controller.ts:36-41 | the pages up to `totalPages` concatenate to the whole listing, each of them is non-empty, and every later page is empty |
| Paging.Listing | backend/src/controllers/role.controller.ts:32 | `find()` lists exactly the stored documents |
| Paging.ListingIncreasing | backend/src/controllers/role.controller.ts:32 | the listing is in creation order, each document once |
| Paging.ListingCount | backend/src/controllers/role.controller.ts:31 | `countDocuments()` equals the length of the listing |
| Paging.Rows | backend/src/controllers/role.controller.ts:32-35 | the documents of a listing, one per id, in order |
| UserController.Reverse | backend/src/controllers/user.controller.ts:13 | the descending order is the ascending order reversed |
| UserController.Selected | backend/src/controllers/user.controller.ts:9-13 | the users whose email matches the search (all of them for an empty search), strictly increasing in id (creation time) for `order=asc` and strictly decreasing otherwise, so no user twice |
| UserController.GetUsers | backend/src/controllers/user.controller.ts:5-22 | refused (500) for a negative skip; otherwise the page from `(page-1)*limit` of the selected users, at most the absolute value of the limit and cut short only by the end of the selection, and `total` counts every selected user |
| UserController.TotalWithoutSearch | backend/src/controllers/user.controller.ts:17 | without a search, `total` is the number of stored users |
| UserController.CreateUserErrors | backend/src/controllers/user.controller.ts:30-41 | each message is reported exactly when its check fails: the email is not an email, the password is under 8 characters, roles is not an array |
| UserController.UpdateUserErrors | backend/src/controllers/user.controller.ts:53-65 | the same checks, each only for a present field, plus isVerified being a boolean |
| UserController.UpdateChecksAreOptionalCreateChecks | backend/src/controllers/user.controller.ts:30-65 | with the fields present, the update validator reports what the create validator reports; with them absent, only a malformed roles value |
| UserController.ValidatedCreateNeedsOnlyFreeEmail | backend/src/controllers/user.controller.ts:30-51 | a request past the create validator has a non-empty email and password, so `User.create` can only fail on a taken email |
| UserController.Updated | backend/src/controllers/user.controller.ts:69-72 | present fields replace stored ones, the email lower-cased; a password is written only when non-empty, and it is written unhashed |
| UserController.ValidatedUpdateKeepsRecordValid | backend/src/controllers/user.controller.ts:53-72 | an update past validateUpdateUser leaves a record that still has a non-empty email and password |
| UserController.UpdatedPasswordLocksOut | backend/src/controllers/user.controller.ts:71-72 | after an admin sets a password, no candidate password opens the account |
| UserController.UpdatedWithHash | backend/src/controllers/user.controller.ts:67-78 | the corrected update: the new password opens the account and nothing else does; other fields as in `Updated` |
| UserController.GetUser | backend/src/controllers/user.controller.ts:24-28 | 200 with the user, or 404 |
| UserController.CreateUser | backend/src/controllers/user.controller.ts:43-51 | 201 exactly when email and password are non-empty and the email is free; the new user follows `User.create` under the next id and the counter advances; otherwise 400 and nothing changes |
| UserController.UpdateUser | backend/src/controllers/user.controller.ts:67-78 | 404 exactly for an unknown id, 400 exactly when the new email belongs to another user, otherwise the user becomes `Updated` |
| UserController.DeleteUser | backend/src/controllers/user.controller.ts:80-84 | the user is removed and nothing else changes; 404 when absent |
| UserController.ActivateUser | backend/src/controllers/user.controller.ts:86-90 | `isVerified` becomes true and nothing else changes; 404 when absent |
| UserController.DeactivateUser | backend/src/controllers/user.controller.ts:92-96 | `isVerified` becomes false and nothing else changes; 404 when absent |
| UserController.CastRoles | backend/src/controllers/user.controller.ts:100-105 | Mongoose's array cast: a list is kept, a single id becomes a one-element list, an absent field stays absent, and only a value that does not cast is an error |
| UserController.UpdateUserRoles | backend/src/controllers/user.controller.ts:98-111 | a value that does not cast is a 400 before the lookup; otherwise 404 for an unknown id, and the role list is replaced by the cast value, a single id stored as a one-element list (unchanged when absent) |
| RoleController.CreateRoleErrors | backend/src/controllers/role.controller.ts:6-16 | no error exactly when the name is a non-empty string and permissions is absent or an array |
| RoleController.UpdateRoleErrors | backend/src/controllers/role.controller.ts:50-60 | the same checks, each skipped when the field is absent |
| RoleController.CreateValidImpliesUpdateValid | backend/src/controllers/role.controller.ts:6-60 | a body valid for creation is valid for update |
| RoleController.FindRoleByName | backend/src/models/role.model.ts:9 | the role holding a name, and none exactly when no role holds it |
| RoleController.CreateRole | backend/src/controllers/role.controller.ts:18-26 | 201 exactly when the name is non-empty and free, with the role stored under the next id and the counter advanced; otherwise 400 and nothing changes |
| RoleController.Populated | backend/src/controllers/role.controller.ts:45 | a populated role keeps its name and lists exactly its existing permissions |
| RoleController.GetRoles | backend/src/controllers/role.controller.ts:28-42 | refused for a page below 1; otherwise the populated roles of that page of 10, the page number, `totalPages` as the ceiling of count over 10, and the count |
| RoleController.GetRolesReportsCollection | backend/src/controllers/role.controller.ts:28-42 | `totalCount` is the number of roles, a page holds at most 10, and the pages up to `totalPages` list every role once |
| RoleController.GetRole | backend/src/controllers/role.controller.ts:44-48 | 200 with the populated role, or 404 |
| RoleController.UpdateRole | backend/src/controllers/role.controller.ts:62-75 | 404 exactly for an unknown id, 400 exactly when the new name belongs to another role, otherwise the given fields replace the stored ones |
| RoleController.DeleteRole | backend/src/controllers/role.controller.ts:77-81 | the role is removed and nothing else changes; 404 when absent |
| PermissionController.CreatePermissionErrors | backend/src/controllers/permission.controller.ts:5-14 | no error exactly when the name is a non-empty string |
| PermissionController.UpdatePermissionErrors | backend/src/controllers/permission.controller.ts:47-56 | no error exactly when the name is absent or a non-empty string |
| PermissionController.FindPermissionByName | backend/src/models/permission.model.ts:8 | the permission holding a name, and none exactly when no permission holds it |
| PermissionController.CreatePermission | backend/src/controllers/permission.controller.ts:16-24 | 201 exactly when the name is non-empty and free, stored under the next id with the counter advanced; otherwise 400 and nothing changes |
| PermissionController.GetPermissions | backend/src/controllers/permission.controller.ts:26-39 | page and page size default when absent or 0; refused for a negative skip; otherwise the window of the listing, full unless the listing ends first, `totalPages` as `Math.ceil(count / limit)`, and the count |
| PermissionController.GetPermissionsReportsCollection | backend/src/controllers/permission.controller.ts:26-39 | with a positive page size, `totalCount` is the number of permissions and the pages up to `totalPages` list each once |
| PermissionController.ZeroLimitMeansTen | backend/src/controllers/permission.controller.ts:28 | `limit=0` behaves as an absent limit, so at most 10 are listed |
| PermissionController.GetPermission | backend/src/controllers/permission.controller.ts:41-45 | 200 with the permission, or 404 |
| PermissionController.UpdatePermission | backend/src/controllers/permission.controller.ts:58-71 | 404 exactly for an unknown id, 400 exactly when the name belongs to another permission, otherwise the given name replaces the stored one |
| PermissionController.DeletePermission | backend/src/controllers/permission.controller.ts:73-77 | the permission is removed, roles keep their references; 404 when absent |
| FrontendAuthApi.ConfirmResetBody | frontend/src/api/auth.ts:29-33 | an e-mail body exactly when the input contains '@', a token body otherwise, with the password passed through |
| FrontendAuthApi.ConfirmResetBodyRoundTrip | frontend/src/api/auth.ts:29-33 | the body carries the input unchanged, and rebuilding from the carried value gives the same body |
| FrontendAuthApi.OneFieldFilled | frontend/src/api/auth.ts:31-33 | for a non-empty input, exactly one of `token` and `email` reaches the server filled in |
| FrontendAuthApi.IssuedResetTokenTakesTokenBranch | frontend/src/api/auth.ts:30-33 | a reset token as the server issues it always goes to the server as `token` |
| RolePermissionsPage.RemoveAll | frontend/src/pages/RolePermissions.tsx:40 | the filter removes every occurrence of the id and keeps all other ids |
| RolePermissionsPage.Toggle | frontend/src/pages/RolePermissions.tsx:39-41 | toggling an unselected id appends it at the end; toggling a selected one removes all its occurrences; every other id's selection is left alone |
| RolePermissionsPage.RemoveAbsent | frontend/src/pages/RolePermissions.tsx:40 | filtering out an unselected id changes nothing |
| RolePermissionsPage.RemoveAllAppend | frontend/src/pages/RolePermissions.tsx:40 | the filter distributes over concatenation |
| RolePermissionsPage.ToggleTwice | frontend/src/pages/RolePermissions.tsx:39-41 | toggling twice restores the selection when the id was unselected; when it was selected, the id moves to the end and its duplicates merge |
| RolePermissionsPage.RemoveSingle | frontend/src/pages/RolePermissions.tsx:40 | deselecting an id held once removes exactly that entry and keeps the order |
| RolePermissionsPage.PresentIdsIdempotent | frontend/src/pages/RolePermissions.tsx:33 | populating already populated references changes nothing |
| RolePermissionsPage.Save | frontend/src/pages/RolePermissions.tsx:43-50 | saving replaces the role's permission list with the selection and keeps its name; 404 for a deleted role |
| RolePermissionsPage.SaveUntouched | frontend/src/pages/RolePermissions.tsx:22-50 | saving the initial selection unchanged drops the role's dangling references and keeps its name and what it grants |

## Left out

- The 500 answers when storage, hashing or token generation throws: the stores and services here do not fail.
- Rate limiting, the wiring of routes other than signup and login, `app.ts`, the seed script and the React UI beyond the two pieces above.
- Secrets from the environment: the default secrets `dev_secret` and `dev_refresh_secret` are used.
- The `auth.controller.ts` handlers other than signup and login: they only forward to the service.
- Non-string email and password values in the signup and login bodies: a field is either absent or a string.
- JWT's `iat` claim and header, and bcrypt's hash internals: both are symbolic.
- UserModel.Create, UserModel.SetPasswordAndSave, AuthService.WithNewPassword and UserController.UpdatedWithHash: "accepts exactly the password" holds for the symbolic digest. bcryptjs hashes only the first 72 bytes of its input, so a longer password is also accepted by any candidate sharing those 72 bytes.
- AuthService.WithNewPassword: a stored digest never equals typed text in the model. If a user typed a digest's exact string as the new password, Mongoose would see no change and keep the digest; that case is not modelled.
- Case folding beyond ASCII in the `lowercase` setter.
- Save-time validation in `user.save()` (the reset and verification paths): the model assumes every stored user passes it. Through the routes this holds, because validateUpdateUser rejects an empty email (UserController.ValidatedUpdateKeepsRecordValid). A direct `updateUser` call with an empty email would leave a record whose later `save()` fails; there the model's ResetPasswordConfirm and VerifyEmail answer 200.
- `find()` without a sort is assumed to list documents in insertion order (id order). MongoDB does not guarantee natural order.
- `createdAt` is assumed to be distinct for every user, so sorting by it is sorting by id. Two users created in the same millisecond would tie, and the database may order them either way.
- A `null` roles value in PATCH /users/:id/roles: the field is either absent, a list, a single id or a value that does not cast.
- bcryptjs's handling of a stored raw password that happens to be 60 characters long: the model treats every raw value as one that never matches.
- Concurrent requests: each handler runs alone.
- Query strings that parse to `NaN` in `getUsers` (`+page`, `+limit`). The other listings' `parseInt(q) || d` is modelled.
- Sort keys other than `createdAt` in `getUsers`. The e-mail regex search is a `matches` parameter, and express-validator's `isEmail` is an `isEmail` parameter.
- Cast errors for malformed ObjectIds.
- `null` and non-string names that pass `notEmpty`: a name is either absent, a string or of the wrong type.
- The populated `roles` in user responses (`getUsers`, `getUser`): users are returned as stored.
- How Express answers the unhandled rejection of a negative skip in `getRoles` and `getPermissions`: it is modelled as no result (`None`).

## Findings

| source | as written | input that shows it | evidently intended | confidence | as-written member | corrected member |
|---|---|---|---|---|---|---|
| backend/src/controllers/user.controller.ts:71-72 | `updateUser` writes `password` through `findByIdAndUpdate`, which skips the pre-save hook, so the raw text is stored and `comparePassword` never accepts it | an admin update of any user with `{ "password": "newpassword1" }`, then a login with `newpassword1`, is refused with 401 | the new password is hashed, as on creation and reset, and opens the account | not executed | UserController.UpdatedPasswordLocksOut | UserController.UpdatedWithHash |
